/**
 The Bloom filter of wifi/iw/bloom.c and the loop of `parse_srf` (wifi/iw/nan.c) that fills it with
 MAC addresses.
 */
module BloomFilter {
  import opened BitArray
  import opened Bytes
  import opened Crc32
  import opened Options

  const ETH_ALEN := 6
  const SRF_MAX_LEN := 255
  const EINVAL := 22

  // ---------------------------------------------------------------- hashing

  /** `h`: the checksum of the index byte and the address, reduced to a bit number. */
  function Hash(j: bv8, buf: seq<Byte>, m: nat): nat
    requires m > 0
  {
    Reduced(Crc(0xFFFF_FFFF, [j] + buf), m)
  }

  /** A checksum cut to 16 bits, as a bit number. */
  function Reduced(c: bv32, m: nat): (r: nat)
    requires m > 0
    ensures r < m
  {
    (c & 0xFFFF) as nat % m
  }

  /** The argument of the i-th hash; `h` takes it as a `uint8_t`. */
  function HashIndex(idx: bv8, i: nat): bv8
    requires i < 4
  {
    ((i + idx as nat * 4) % 256) as bv8
  }

  /** The bits the first `n` hashes of an address give. */
  function BitsBelow(idx: bv8, mac: seq<Byte>, m: nat, n: nat): set<nat>
    requires m > 0 && n <= 4
  {
    if n == 0 then {} else BitsBelow(idx, mac, m, n - 1) + {Hash(HashIndex(idx, n - 1), mac, m)}
  }

  /** The bits one address sets. */
  function Bits(idx: bv8, mac: seq<Byte>, m: nat): set<nat>
    requires m > 0
  {
    BitsBelow(idx, mac, m, 4)
  }

  /** The index byte of the i-th hash of an address. */
  function IndexByte(idx: bv8, i: nat): bv8 {
    ((4 * idx as nat + i) % 256) as bv8
  }

  function LowSixteen(c: bv32): nat {
    (c & 0xFFFF) as nat
  }

  lemma HashIs(idx: bv8, i: nat, mac: seq<Byte>, m: nat)
    requires m > 0 && i < 4
    ensures Hash(HashIndex(idx, i), mac, m) == LowSixteen(Crc(0xFFFF_FFFF, [IndexByte(idx, i)] + mac)) % m
  {
    assert HashIndex(idx, i) == IndexByte(idx, i);
    hide Crc, HashIndex, IndexByte;
    ReducedIs(Crc(0xFFFF_FFFF, [IndexByte(idx, i)] + mac), m);
    hide Reduced, LowSixteen;
  }

  lemma ReducedIs(c: bv32, m: nat)
    requires m > 0
    ensures Reduced(c, m) == LowSixteen(c) % m
  {
  }

  /**
   The four bits of an address: the low sixteen bits of the checksum of an index byte and the address,
   started from all ones, modulo the number of bits.
   */
  lemma FourBits(idx: bv8, mac: seq<Byte>, m: nat, b: nat)
    requires m > 0
    ensures b in Bits(idx, mac, m) <==>
            exists i :: 0 <= i < 4 && b == LowSixteen(Crc(0xFFFF_FFFF, [IndexByte(idx, i)] + mac)) % m
  {
    hide Crc, Hash, HashIndex, IndexByte, LowSixteen, Reduced;
    BitsOfFour(idx, mac, m);
    hide Bits;
    HashIs(idx, 0, mac, m);
    HashIs(idx, 1, mac, m);
    HashIs(idx, 2, mac, m);
    HashIs(idx, 3, mac, m);
  }

  lemma BitsOfFour(idx: bv8, mac: seq<Byte>, m: nat)
    requires m > 0
    ensures Bits(idx, mac, m) == {Hash(HashIndex(idx, 0), mac, m), Hash(HashIndex(idx, 1), mac, m),
                                  Hash(HashIndex(idx, 2), mac, m), Hash(HashIndex(idx, 3), mac, m)}
  {
    hide Hash, HashIndex;
    NoBitsBelow(idx, mac, m);
    MoreBitsBelow(idx, mac, m, 1);
    MoreBitsBelow(idx, mac, m, 2);
    MoreBitsBelow(idx, mac, m, 3);
    MoreBitsBelow(idx, mac, m, 4);
    hide BitsBelow;
  }

  lemma NoBitsBelow(idx: bv8, mac: seq<Byte>, m: nat)
    requires m > 0
    ensures BitsBelow(idx, mac, m, 0) == {}
  {
  }

  lemma MoreBitsBelow(idx: bv8, mac: seq<Byte>, m: nat, n: nat)
    requires m > 0 && 0 < n <= 4
    ensures BitsBelow(idx, mac, m, n) == BitsBelow(idx, mac, m, n - 1) + {Hash(HashIndex(idx, n - 1), mac, m)}
  {
    hide Hash, HashIndex;
  }

  lemma {:induction false} BitsInRange(idx: bv8, mac: seq<Byte>, m: nat, n: nat)
    requires m > 0 && n <= 4
    ensures forall b :: b in BitsBelow(idx, mac, m, n) ==> b < m
  {
    if n > 0 {
      BitsInRange(idx, mac, m, n - 1);
    }
  }

  /** The bits a set of addresses sets. */
  ghost function AllBits(idx: bv8, macs: set<seq<Byte>>, m: nat): set<nat>
    requires m > 0
  {
    set mac, b | mac in macs && b in Bits(idx, mac, m) :: b
  }

  /** The membership test of a receiver. */
  ghost predicate MayContain(bf: seq<bv8>, idx: bv8, mac: seq<Byte>)
    requires |bf| > 0
  {
    Bits(idx, mac, 8 * |bf|) <= Members(bf)
  }

  /** `h` itself: two calls of `crc32`. */
  method H(j: bv8, buf: seq<Byte>, m: nat) returns (r: nat)
    requires 0 < m < 0x1_0000
    ensures r == Hash(j, buf, m) < m
  {
    hide Crc, FeedBits, Reduced;
    var crc := UpdateCrc(0xFFFF_FFFF, [j]);
    var c := UpdateCrc(crc, buf);
    CrcConcat(0xFFFF_FFFF, [j], buf);
    r := Reduced(c, m);
  }

  /** `set_bit` */
  method SetBit(bf: array<bv8>, m: nat)
    requires m < 8 * bf.Length
    modifies bf
    ensures Members(bf[..]) == old(Members(bf[..])) + {m}
  {
    bf[m / 8] := bf[m / 8] | Mask(m % 8);
    assert bf[..] == old(bf[..])[m / 8 := old(bf[m / 8]) | Mask(m % 8)];
    SetOneBit(old(bf[..]), m);
  }

  /** `nan_bf` */
  method NanBf(idx: bv8, bf: array<bv8>, mac: seq<Byte>)
    requires 0 < 8 * bf.Length < 0x1_0000
    modifies bf
    ensures Members(bf[..]) == old(Members(bf[..])) + Bits(idx, mac, 8 * bf.Length)
  {
    hide Members, Hash, HashIndex;
    var i := 0;
    while i < 4
      invariant 0 <= i <= 4
      invariant Members(bf[..]) == old(Members(bf[..])) + BitsBelow(idx, mac, 8 * bf.Length, i)
    {
      var r := H(HashIndex(idx, i), mac, 8 * bf.Length);
      SetBit(bf, r);
      i := i + 1;
    }
  }

  // ---------------------------------------------------------------- filling the filter

  /** The addresses of the tokens, when all of them parse. */
  function Macs(tokens: seq<Option<seq<Byte>>>): set<seq<Byte>>
    requires forall t :: t in tokens ==> t.Some?
  {
    set t | t in tokens :: t.value
  }

  lemma AllBitsAdds(idx: bv8, macs: set<seq<Byte>>, mac: seq<Byte>, m: nat)
    requires m > 0
    ensures AllBits(idx, macs + {mac}, m) == AllBits(idx, macs, m) + Bits(idx, mac, m)
  {
    hide Bits;
    forall b
      ensures b in AllBits(idx, macs + {mac}, m) <==> b in AllBits(idx, macs, m) + Bits(idx, mac, m)
    {
      if b in Bits(idx, mac, m) {
        assert mac in macs + {mac};
      }
    }
  }

  /**
   The Bloom-filter loop of `parse_srf`.  A token is what `mac_addr_a2n` made of it.  The filter is
   allocated and cleared here; a bad length or a bad token is refused.
   */
  method FillFilter(idx: bv8, srfLen: nat, tokens: seq<Option<seq<Byte>>>) returns (r: int, srf: seq<bv8>)
    ensures r == 0 || r == -22
    ensures r == 0 <==> 0 < srfLen < 256 && forall t :: t in tokens ==> t.Some?
    ensures r == 0 ==> |srf| == srfLen && Members(srf) == AllBits(idx, Macs(tokens), 8 * srfLen)
  {
    hide Members, Bits;
    if srfLen == 0 || srfLen > SRF_MAX_LEN {
      return -EINVAL, [];
    }
    var bf := new bv8[srfLen](_ => 0);
    EmptyFilter(bf[..]);
    var n := 0;
    while n < |tokens|
      invariant 0 <= n <= |tokens|
      invariant forall i :: 0 <= i < n ==> tokens[i].Some?
      invariant forall t :: t in tokens[..n] ==> t.Some?
      invariant Members(bf[..]) == AllBits(idx, Macs(tokens[..n]), 8 * srfLen)
    {
      if tokens[n].None? {
        assert tokens[n] in tokens;
        return -EINVAL, [];
      }
      NanBf(idx, bf, tokens[n].value);
      AllBitsAdds(idx, Macs(tokens[..n]), tokens[n].value, 8 * srfLen);
      assert tokens[..n + 1] == tokens[..n] + [tokens[n]];
      MacsOfOneMore(tokens[..n], tokens[n]);
      n := n + 1;
    }
    assert tokens[..n] == tokens;
    return 0, bf[..];
  }

  lemma MacsOfOneMore(tokens: seq<Option<seq<Byte>>>, t: Option<seq<Byte>>)
    requires t.Some? && forall u :: u in tokens ==> u.Some?
    ensures forall u :: u in tokens + [t] ==> u.Some?
    ensures Macs(tokens + [t]) == Macs(tokens) + {t.value}
  {
  }

  // ---------------------------------------------------------------- consequences

  /** No false negatives: an inserted address always tests present. */
  lemma NoFalseNegatives(idx: bv8, srf: seq<bv8>, macs: set<seq<Byte>>, mac: seq<Byte>)
    requires |srf| > 0 && Members(srf) == AllBits(idx, macs, 8 * |srf|) && mac in macs
    ensures MayContain(srf, idx, mac)
  {
    hide Bits;
  }

  /** The filter depends on the set of addresses only, not on their order or repetition. */
  lemma OrderDoesNotMatter(idx: bv8, a: seq<bv8>, b: seq<bv8>, s: seq<Option<seq<Byte>>>, t: seq<Option<seq<Byte>>>)
    requires |a| == |b| > 0
    requires (forall u :: u in s ==> u.Some?) && (forall u :: u in t ==> u.Some?)
    requires Members(a) == AllBits(idx, Macs(s), 8 * |a|) && Members(b) == AllBits(idx, Macs(t), 8 * |b|)
    requires forall u :: u in s <==> u in t
    ensures a == b
  {
    hide Members, Bits;
    assert Macs(s) == Macs(t);
    FilterOfItsBits(a, b);
  }

  /** An address that was not inserted tests present exactly when others set all of its bits. */
  lemma FalsePositives(idx: bv8, srf: seq<bv8>, macs: set<seq<Byte>>, mac: seq<Byte>)
    requires |srf| > 0 && Members(srf) == AllBits(idx, macs, 8 * |srf|)
    ensures MayContain(srf, idx, mac) <==>
            forall b :: b in Bits(idx, mac, 8 * |srf|) ==> exists other :: other in macs && b in Bits(idx, other, 8 * |srf|)
  {
    hide Bits;
  }
}
