/**
 The macros of wifi/iw/sha256.c.  They compute in `unsigned long`, here 64 bits wide, on operands
 that are 32-bit words; a result reaches a word only by truncation on assignment.
 */
module Sha256Macros {
  import opened Fips180

  /** The implicit conversion of a word to `unsigned long`. */
  function Widen(x: bv32): bv64 {
    x as bv64
  }

  function RORc(x: bv32, y: bv32): bv64
    requires 0 < y < 32
  {
    (((x as bv64 & 0xFFFF_FFFF) >> (y & 31)) | (x as bv64 << (32 - (y & 31)))) & 0xFFFF_FFFF
  }

  function R(x: bv32, n: bv32): bv64
    requires 0 < n < 32
  {
    (x as bv64 & 0xFFFF_FFFF) >> n
  }

  function XorLong(x: bv64, y: bv64, z: bv64): bv64 {
    x ^ y ^ z
  }

  function ChMacro(x: bv32, y: bv32, z: bv32): bv32 {
    z ^ (x & (y ^ z))
  }

  function MajMacro(x: bv32, y: bv32, z: bv32): bv32 {
    ((x | y) & z) | (x & y)
  }

  function Sigma0(x: bv32): bv64 {
    XorLong(RORc(x, 2), RORc(x, 13), RORc(x, 22))
  }

  function Sigma1(x: bv32): bv64 {
    XorLong(RORc(x, 6), RORc(x, 11), RORc(x, 25))
  }

  function Gamma0(x: bv32): bv64 {
    XorLong(RORc(x, 7), RORc(x, 18), R(x, 3))
  }

  function Gamma1(x: bv32): bv64 {
    XorLong(RORc(x, 17), RORc(x, 19), R(x, 10))
  }

  // The bit-level facts are stated on bare expressions first: that is the form the solver's
  // bit-vector rewriting settles at once.

  lemma ChBits(x: bv32, y: bv32, z: bv32)
    ensures z ^ (x & (y ^ z)) == (x & y) ^ (!x & z)
  {
  }

  lemma MajBits(x: bv32, y: bv32, z: bv32)
    ensures ((x | y) & z) | (x & y) == (x & y) ^ (x & z) ^ (y & z)
  {
  }

  lemma RotationBits(x: bv32, n: bv32)
    requires 0 < n < 32
    ensures (((x as bv64 & 0xFFFF_FFFF) >> (n & 31)) | (x as bv64 << (32 - (n & 31)))) & 0xFFFF_FFFF
            == ((x >> n) | (x << (32 - n))) as bv64
  {
  }

  /** The shorter boolean forms of the C code compute the choice and majority of section 4.1.2. */
  lemma LogicalMacros(x: bv32, y: bv32, z: bv32)
    ensures ChMacro(x, y, z) == Ch(x, y, z)
    ensures MajMacro(x, y, z) == Maj(x, y, z)
  {
    ChBits(x, y, z);
    MajBits(x, y, z);
  }

  /** The 64-bit shift-or-mask is the 32-bit rotation, for every rotation distance. */
  lemma Rotation(x: bv32, n: bv32)
    requires 0 < n < 32
    ensures RORc(x, n) == Widen(Rotr(x, n))
  {
    RotationBits(x, n);
  }

  lemma Shift(x: bv32, n: bv32)
    requires 0 < n < 32
    ensures R(x, n) == Widen(Shr(x, n))
  {
  }

  lemma XorWidens(a: bv32, b: bv32, c: bv32)
    ensures XorLong(Widen(a), Widen(b), Widen(c)) == Widen(Xor(a, b, c))
  {
  }

  /** The four sums of rotations and shifts are those of section 4.1.2, with the high half zero. */
  lemma BigSigmaMacros(x: bv32)
    ensures Sigma0(x) == Widen(BigSigma0(x))
    ensures Sigma1(x) == Widen(BigSigma1(x))
  {
    Rotation(x, 2); Rotation(x, 13); Rotation(x, 22);
    XorWidens(Rotr(x, 2), Rotr(x, 13), Rotr(x, 22));
    Rotation(x, 6); Rotation(x, 11); Rotation(x, 25);
    XorWidens(Rotr(x, 6), Rotr(x, 11), Rotr(x, 25));
  }

  lemma SmallSigmaMacros(x: bv32)
    ensures Gamma0(x) == Widen(SmallSigma0(x))
    ensures Gamma1(x) == Widen(SmallSigma1(x))
  {
    Rotation(x, 7); Rotation(x, 18); Shift(x, 3);
    XorWidens(Rotr(x, 7), Rotr(x, 18), Shr(x, 3));
    Rotation(x, 17); Rotation(x, 19); Shift(x, 10);
    XorWidens(Rotr(x, 17), Rotr(x, 19), Shr(x, 10));
  }

  // The sums of the compression function, each truncated once, on assignment to a word.

  function AssignSum4(x: bv64, y: bv32, z: bv64, u: bv32): bv32 {
    ((x + y as bv64 + z + u as bv64) & 0xFFFF_FFFF) as bv32
  }

  function AssignSum5(x: bv32, y: bv64, z: bv32, k: bv64, w: bv32): bv32 {
    ((x as bv64 + y + z as bv64 + k + w as bv64) & 0xFFFF_FFFF) as bv32
  }

  function AssignSum2(x: bv64, y: bv32): bv32 {
    ((x + y as bv64) & 0xFFFF_FFFF) as bv32
  }

  lemma Truncates(x: bv64, y: bv32)
    requires x == Widen(y)
    ensures (x & 0xFFFF_FFFF) as bv32 == y
  {
  }

  lemma SumBits2(x: bv64, y: bv32)
    ensures AssignSum2(x, y) == Sum2((x & 0xFFFF_FFFF) as bv32, y)
  {
  }

  lemma SumBits4(x: bv64, y: bv32, z: bv64, u: bv32)
    ensures AssignSum4(x, y, z, u) == Sum4((x & 0xFFFF_FFFF) as bv32, y, (z & 0xFFFF_FFFF) as bv32, u)
  {
  }

  lemma SumBits5(x: bv32, y: bv64, z: bv32, k: bv64, u: bv32)
    ensures AssignSum5(x, y, z, k, u)
         == Sum5(x, (y & 0xFFFF_FFFF) as bv32, z, (k & 0xFFFF_FFFF) as bv32, u)
  {
  }

  // Summing in 64 bits and truncating once is adding modulo 2^32 at each step.

  lemma AssignedSum2(x: bv64, y: bv32, x': bv32)
    requires x == Widen(x')
    ensures AssignSum2(x, y) == Sum2(x', y)
  {
    Truncates(x, x');
    SumBits2(x, y);
  }

  lemma AssignedSum4(x: bv64, y: bv32, z: bv64, u: bv32, x': bv32, z': bv32)
    requires x == Widen(x') && z == Widen(z')
    ensures AssignSum4(x, y, z, u) == Sum4(x', y, z', u)
  {
    Truncates(x, x');
    Truncates(z, z');
    SumBits4(x, y, z, u);
  }

  lemma AssignedSum5(x: bv32, y: bv64, z: bv32, k: bv64, u: bv32, y': bv32)
    requires y == Widen(y')
    ensures AssignSum5(x, y, z, k, u) == Sum5(x, y', z, Low32(k), u)
  {
    Truncates(y, y');
    SumBits5(x, y, z, k, u);
  }
}
