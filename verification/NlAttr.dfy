/**
 Netlink attributes: layout, encoding, and the walk that `nla_for_each_attr` makes over a stream
 (wifi/libnl-tiny/attr.c, include/netlink/attr.h).  Header fields are two 16-bit numbers in host
 order, taken to be little-endian.
 */
module NlAttr {
  import opened Bytes

  const HDRLEN := 4

  /** A header and its payload; `rawType` still carries the nested and byte-order flag bits. */
  datatype Attr = Attr(rawType: nat, payload: seq<byte>)

  /** `nla_type`: the low fourteen bits. */
  function TypeOf(a: Attr): nat {
    a.rawType % 0x4000
  }

  function Align(n: nat): (r: nat)
    ensures r % 4 == 0 && n <= r < n + 4
  {
    (n + 3) / 4 * 4
  }

  function Le16(x: nat): (s: seq<byte>)
    ensures |s| == 2
  {
    [(x % 256) as byte, (x / 256 % 256) as byte]
  }

  function Get16(s: seq<byte>, p: nat): (x: nat)
    requires p + 2 <= |s|
    ensures x <= 0xFFFF
  {
    s[p] as int + 256 * s[p + 1] as int
  }

  function Padding(n: nat): (s: seq<byte>)
    ensures |s| == n
  {
    seq(n, _ => 0)
  }

  // ---------------------------------------------------------------- encoding

  /** What the 16-bit header fields can hold. */
  predicate Encodable(a: Attr) {
    a.rawType <= 0xFFFF && HDRLEN + |a.payload| <= 0xFFFF
  }

  function Encode(a: Attr): (s: seq<byte>)
    ensures |s| == Align(HDRLEN + |a.payload|) && |s| % 4 == 0
  {
    Le16(HDRLEN + |a.payload|) + Le16(a.rawType) + a.payload +
    Padding(Align(HDRLEN + |a.payload|) - (HDRLEN + |a.payload|))
  }

  /** The header is two numbers in little-endian order, and the whole is padded with zeros to a multiple of four. */
  lemma EncodingIs(a: Attr)
    requires Encodable(a)
    ensures var s, n := Encode(a), |a.payload|;
            && s[0] as int + 256 * s[1] as int == 4 + n && s[2] as int + 256 * s[3] as int == a.rawType
            && s[4..4 + n] == a.payload && (forall i :: 4 + n <= i < |s| ==> s[i] == 0)
            && |s| % 4 == 0 && 4 + n <= |s| < 8 + n
  {
    hide Align;
  }

  /** The bits for nesting and byte order are no part of the type. */
  lemma TypeWithFlags(t: nat, payload: seq<byte>)
    requires t < 16384
    ensures TypeOf(Attr(t, payload)) == t == TypeOf(Attr(0x4000 + t, payload))
    ensures TypeOf(Attr(0x8000 + t, payload)) == t == TypeOf(Attr(0xC000 + t, payload))
  {
  }

  function EncodeAll(attrs: seq<Attr>): (s: seq<byte>)
    ensures |s| % 4 == 0
  {
    if attrs == [] then [] else Encode(attrs[0]) + EncodeAll(attrs[1..])
  }

  // ---------------------------------------------------------------- the walk

  /** The `nla_len` field at `p`. */
  function LenAt(s: seq<byte>, p: nat): nat
    requires p + 2 <= |s|
  {
    Get16(s, p)
  }

  /** `nla_ok` with `remaining == |s| - p`, as long as that is not negative. */
  predicate Ok(s: seq<byte>, p: nat)
    requires p <= |s|
  {
    |s| - p >= HDRLEN && HDRLEN <= LenAt(s, p) <= |s| - p
  }

  function AttrAt(s: seq<byte>, p: nat): Attr
    requires p <= |s| && Ok(s, p)
  {
    Attr(Get16(s, p + 2), s[p + HDRLEN..p + LenAt(s, p)])
  }

  /** `nla_next` */
  function Next(s: seq<byte>, p: nat): (n: nat)
    requires p <= |s| && Ok(s, p)
    ensures n >= p + 4
  {
    p + Align(LenAt(s, p))
  }

  /**
   The walk from `p` never takes `remaining` below zero.  Once negative, `remaining` converts to a
   huge `size_t` in `nla_ok`, and the walk reads outside the stream.
   */
  predicate StaysInside(s: seq<byte>, p: nat)
    decreases |s| - p
  {
    p <= |s| && (Ok(s, p) ==> Next(s, p) <= |s| && StaysInside(s, Next(s, p)))
  }

  predicate AllOk(s: seq<byte>, offs: seq<nat>) {
    forall i :: 0 <= i < |offs| ==> offs[i] <= |s| && Ok(s, offs[i])
  }

  /** The offsets at which the loop body runs. */
  function Offsets(s: seq<byte>, p: nat): (r: seq<nat>)
    requires StaysInside(s, p)
    ensures AllOk(s, r)
    decreases |s| - p
  {
    if Ok(s, p) then [p] + Offsets(s, Next(s, p)) else []
  }

  /** The bytes left when the loop ends. */
  function Leftover(s: seq<byte>, p: nat): nat
    requires StaysInside(s, p)
    decreases |s| - p
  {
    if Ok(s, p) then Leftover(s, Next(s, p)) else |s| - p
  }

  function AttrsAt(s: seq<byte>, p: nat): seq<Attr>
    requires StaysInside(s, p)
    decreases |s| - p
  {
    if Ok(s, p) then [AttrAt(s, p)] + AttrsAt(s, Next(s, p)) else []
  }

  // ---------------------------------------------------------------- which lengths are safe

  /** From an aligned offset of an aligned stream the walk stays inside. */
  lemma {:induction false} AlignedStaysInside(s: seq<byte>, p: nat)
    requires |s| % 4 == 0 && p % 4 == 0 && p <= |s|
    ensures StaysInside(s, p)
    decreases |s| - p
  {
    if Ok(s, p) {
      AlignedStaysInside(s, Next(s, p));
    }
  }

  /** Attributes of four bytes, then one attribute that ends exactly with the stream. */
  function Overrunning(n: nat): (s: seq<byte>)
    requires n >= 4
    ensures |s| == n
  {
    if n < 8 then [n as byte, 0, 0, 0] + Padding(n - 4) else [4, 0, 0, 0] + Overrunning(n - 4)
  }

  lemma {:induction false} OverrunningOverruns(n: nat)
    requires n >= 4 && n % 4 != 0
    ensures !StaysInside(Overrunning(n), 0)
  {
    var s := Overrunning(n);
    if n >= 8 {
      OverrunningOverruns(n - 4);
      assert s[4..] == Overrunning(n - 4);
      ShiftedWalk([4, 0, 0, 0], Overrunning(n - 4), 0);
    }
  }

  /** A prefix of four bytes only shifts the walk of what follows. */
  lemma {:induction false} ShiftedWalk(pre: seq<byte>, s: seq<byte>, p: nat)
    ensures StaysInside(pre + s, |pre| + p) == StaysInside(s, p)
    ensures StaysInside(s, p) ==> AttrsAt(pre + s, |pre| + p) == AttrsAt(s, p)
    ensures StaysInside(s, p) ==> Leftover(pre + s, |pre| + p) == Leftover(s, p)
    decreases |s| - p
  {
    if p <= |s| {
      assert Ok(pre + s, |pre| + p) == Ok(s, p);
      if Ok(s, p) {
        assert AttrAt(pre + s, |pre| + p) == AttrAt(s, p);
        ShiftedWalk(pre, s, Next(s, p));
      }
    }
  }

  /**
   The lengths for which every stream is walked inside its bounds are exactly the multiples of four
   and the lengths too short for a header.
   */
  lemma SafeLengths(n: nat)
    ensures (forall s: seq<byte> :: |s| == n ==> StaysInside(s, 0)) <==> n % 4 == 0 || n < 4
  {
    if n % 4 == 0 {
      forall s: seq<byte> | |s| == n
        ensures StaysInside(s, 0)
      {
        AlignedStaysInside(s, 0);
      }
    } else if n >= 4 {
      OverrunningOverruns(n);
    }
  }

  // ---------------------------------------------------------------- round trip

  lemma GetLe16(x: nat)
    requires x <= 0xFFFF
    ensures Le16(x)[0] as int + 256 * Le16(x)[1] as int == x
  {
  }

  lemma EncodedHeader(a: Attr, rest: seq<byte>)
    requires Encodable(a)
    ensures var s := Encode(a) + rest; Ok(s, 0) && AttrAt(s, 0) == a && Next(s, 0) == |Encode(a)|
  {
    var s := Encode(a) + rest;
    GetLe16(HDRLEN + |a.payload|);
    GetLe16(a.rawType);
    assert s[0..2] == Le16(HDRLEN + |a.payload|);
    assert s[2..4] == Le16(a.rawType);
    assert s[4..4 + |a.payload|] == a.payload;
  }

  /** Walking an encoding yields exactly the attributes encoded, with nothing left over. */
  lemma {:induction false} WalkEncoding(attrs: seq<Attr>)
    requires forall a :: a in attrs ==> Encodable(a)
    ensures StaysInside(EncodeAll(attrs), 0)
    ensures AttrsAt(EncodeAll(attrs), 0) == attrs && Leftover(EncodeAll(attrs), 0) == 0
  {
    hide Encode, Ok, AttrAt, Next, Encodable;
    var s := EncodeAll(attrs);
    AlignedStaysInside(s, 0);
    if attrs != [] {
      var a, rest := attrs[0], EncodeAll(attrs[1..]);
      EncodedHeader(a, rest);
      WalkEncoding(attrs[1..]);
      ShiftedWalk(Encode(a), rest, 0);
    }
  }

  lemma {:induction false} EncodeAppend(attrs: seq<Attr>, a: Attr)
    ensures EncodeAll(attrs + [a]) == EncodeAll(attrs) + Encode(a)
  {
    if attrs == [] {
      assert attrs + [a] == [a];
      assert [a][1..] == [];
      assert EncodeAll([a]) == Encode(a) + EncodeAll([]);
    } else {
      assert (attrs + [a])[1..] == attrs[1..] + [a];
      EncodeAppend(attrs[1..], a);
    }
  }
}
