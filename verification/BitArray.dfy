/** Sets of numbers kept as the bits of a byte array. */
module BitArray {
  function Mask(k: nat): bv8
    requires k < 8
  {
    (1 as bv8) << k
  }

  predicate TestBit(x: bv8, k: nat)
    requires k < 8
  {
    x & Mask(k) != 0
  }

  lemma OrBit(x: bv8, j: nat, k: nat)
    requires j < 8 && k < 8
    ensures TestBit(x | Mask(k), j) <==> TestBit(x, j) || j == k
  {
  }

  lemma MaskValues()
    ensures Mask(0) == 1 && Mask(1) == 2 && Mask(2) == 4 && Mask(3) == 8
    ensures Mask(4) == 16 && Mask(5) == 32 && Mask(6) == 64 && Mask(7) == 128
  {
  }

  lemma EightBits(x: bv8, y: bv8)
    requires (x & 1 != 0) == (y & 1 != 0) && (x & 2 != 0) == (y & 2 != 0) && (x & 4 != 0) == (y & 4 != 0)
    requires (x & 8 != 0) == (y & 8 != 0) && (x & 16 != 0) == (y & 16 != 0) && (x & 32 != 0) == (y & 32 != 0)
    requires (x & 64 != 0) == (y & 64 != 0) && (x & 128 != 0) == (y & 128 != 0)
    ensures x == y
  {
  }

  lemma ByteOfItsBits(x: bv8, y: bv8)
    requires forall k :: 0 <= k < 8 ==> TestBit(x, k) == TestBit(y, k)
    ensures x == y
  {
    hide Mask;
    MaskValues();
    assert TestBit(x, 0) == TestBit(y, 0) && TestBit(x, 1) == TestBit(y, 1) && TestBit(x, 2) == TestBit(y, 2);
    assert TestBit(x, 3) == TestBit(y, 3) && TestBit(x, 4) == TestBit(y, 4) && TestBit(x, 5) == TestBit(y, 5);
    assert TestBit(x, 6) == TestBit(y, 6) && TestBit(x, 7) == TestBit(y, 7);
    EightBits(x, y);
  }

  /** The numbers of the bits that are set. */
  ghost function Members(bf: seq<bv8>): set<nat> {
    set m: nat | m < 8 * |bf| && TestBit(bf[m / 8], m % 8)
  }

  /** A filter is determined by its set bits. */
  lemma FilterOfItsBits(a: seq<bv8>, b: seq<bv8>)
    requires |a| == |b| && Members(a) == Members(b)
    ensures a == b
  {
    hide TestBit;
    forall i | 0 <= i < |a|
      ensures a[i] == b[i]
    {
      forall k | 0 <= k < 8
        ensures TestBit(a[i], k) == TestBit(b[i], k)
      {
        var m := 8 * i + k;
        assert m / 8 == i && m % 8 == k;
        assert m in Members(a) <==> TestBit(a[i], k);
        assert m in Members(b) <==> TestBit(b[i], k);
      }
      ByteOfItsBits(a[i], b[i]);
    }
  }

  lemma SetOneBit(s: seq<bv8>, m: nat)
    requires m < 8 * |s|
    ensures Members(s[m / 8 := s[m / 8] | Mask(m % 8)]) == Members(s) + {m}
  {
    hide TestBit, Mask;
    var t := s[m / 8 := s[m / 8] | Mask(m % 8)];
    forall b: nat | b < 8 * |s|
      ensures b in Members(t) <==> b in Members(s) || b == m
    {
      if b / 8 == m / 8 {
        OrBit(s[m / 8], b % 8, m % 8);
      }
    }
  }

  lemma EmptyFilter(s: seq<bv8>)
    requires forall i :: 0 <= i < |s| ==> s[i] == 0
    ensures Members(s) == {}
  {
  }
}
