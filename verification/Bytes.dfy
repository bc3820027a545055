/** Octets as numbers, and as bits. */
module Bytes {
  newtype byte = x: int | 0 <= x < 256

  type Byte = bv8

  lemma From0(v: nat)
    requires 0 <= v < 32
    ensures v as bv8 as nat == v
  {
  }

  lemma From32(v: nat)
    requires 32 <= v < 64
    ensures v as bv8 as nat == v
  {
  }

  lemma From64(v: nat)
    requires 64 <= v < 96
    ensures v as bv8 as nat == v
  {
  }

  lemma From96(v: nat)
    requires 96 <= v < 128
    ensures v as bv8 as nat == v
  {
  }

  lemma From128(v: nat)
    requires 128 <= v < 160
    ensures v as bv8 as nat == v
  {
  }

  lemma From160(v: nat)
    requires 160 <= v < 192
    ensures v as bv8 as nat == v
  {
  }

  lemma From192(v: nat)
    requires 192 <= v < 224
    ensures v as bv8 as nat == v
  {
  }

  lemma From224(v: nat)
    requires 224 <= v < 256
    ensures v as bv8 as nat == v
  {
  }

  /** The number that a byte holds is the one it was made of. */
  lemma ByteOfNumber(v: nat)
    requires v < 256
    ensures v as bv8 as nat == v
  {
    if v < 32 {
      From0(v);
    } else if v < 64 {
      From32(v);
    } else if v < 96 {
      From64(v);
    } else if v < 128 {
      From96(v);
    } else if v < 160 {
      From128(v);
    } else if v < 192 {
      From160(v);
    } else if v < 224 {
      From192(v);
    } else {
      From224(v);
    }
  }
}
