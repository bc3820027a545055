/**
 SHA-256 as FIPS 180-4 defines it, on byte strings.  Nothing here is taken from the C code except
 the table of round constants, which `Sha256Constants` checks against its definition.

 A word is a `bv32`; the standard's addition modulo 2^32 (section 3.2) is Dafny's `+` on `bv32`.
 */
module Fips180 {
  import opened Bytes

  type Word = bv32

  /** The eight working variables of section 6.2.2, also used for the hash value H. */
  datatype Vars = Vars(a: Word, b: Word, c: Word, d: Word, e: Word, f: Word, g: Word, h: Word)

  // Section 4.1.2: the six logical functions.

  function Rotr(x: Word, n: bv32): Word
    requires 0 < n < 32
  {
    (x >> n) | (x << (32 - n))
  }

  function Shr(x: Word, n: bv32): Word
    requires 0 < n < 32
  {
    x >> n
  }

  function Xor(x: Word, y: Word, z: Word): Word {
    x ^ y ^ z
  }

  function Ch(x: Word, y: Word, z: Word): Word {
    (x & y) ^ (!x & z)
  }

  function Maj(x: Word, y: Word, z: Word): Word {
    (x & y) ^ (x & z) ^ (y & z)
  }

  function BigSigma0(x: Word): Word {
    Xor(Rotr(x, 2), Rotr(x, 13), Rotr(x, 22))
  }

  function BigSigma1(x: Word): Word {
    Xor(Rotr(x, 6), Rotr(x, 11), Rotr(x, 25))
  }

  function SmallSigma0(x: Word): Word {
    Xor(Rotr(x, 7), Rotr(x, 18), Shr(x, 3))
  }

  function SmallSigma1(x: Word): Word {
    Xor(Rotr(x, 17), Rotr(x, 19), Shr(x, 10))
  }

  // Section 3.2: sums of words, modulo 2^32.

  function Sum2(a: Word, b: Word): Word {
    a + b
  }

  function Sum4(a: Word, b: Word, c: Word, d: Word): Word {
    a + b + c + d
  }

  function Sum5(a: Word, b: Word, c: Word, d: Word, e: Word): Word {
    a + b + c + d + e
  }

  // Section 4.2.2: the round constants.

  const K: seq<bv64> :=
    [0x428a2f98, 0x71374491, 0xb5c0fbcf, 0xe9b5dba5, 0x3956c25b, 0x59f111f1, 0x923f82a4, 0xab1c5ed5] +
    [0xd807aa98, 0x12835b01, 0x243185be, 0x550c7dc3, 0x72be5d74, 0x80deb1fe, 0x9bdc06a7, 0xc19bf174] +
    [0xe49b69c1, 0xefbe4786, 0x0fc19dc6, 0x240ca1cc, 0x2de92c6f, 0x4a7484aa, 0x5cb0a9dc, 0x76f988da] +
    [0x983e5152, 0xa831c66d, 0xb00327c8, 0xbf597fc7, 0xc6e00bf3, 0xd5a79147, 0x06ca6351, 0x14292967] +
    [0x27b70a85, 0x2e1b2138, 0x4d2c6dfc, 0x53380d13, 0x650a7354, 0x766a0abb, 0x81c2c92e, 0x92722c85] +
    [0xa2bfe8a1, 0xa81a664b, 0xc24b8b70, 0xc76c51a3, 0xd192e819, 0xd6990624, 0xf40e3585, 0x106aa070] +
    [0x19a4c116, 0x1e376c08, 0x2748774c, 0x34b0bcb5, 0x391c0cb3, 0x4ed8aa4a, 0x5b9cca4f, 0x682e6ff3] +
    [0x748f82ee, 0x78a5636f, 0x84c87814, 0x8cc70208, 0x90befffa, 0xa4506ceb, 0xbef9a3f7, 0xc67178f2]

  function Low32(x: bv64): Word {
    (x & 0xFFFF_FFFF) as bv32
  }

  function RoundConstant(t: nat): Word
    requires t < 64
  {
    Low32(K[t])
  }

  // Section 5.3.3: the initial hash value.

  const H0 := Vars(0x6a09e667, 0xbb67ae85, 0x3c6ef372, 0xa54ff53a, 0x510e527f, 0x9b05688c, 0x1f83d9ab, 0x5be0cd19)

  // Section 3.1: big-endian conversions.

  /** The number that four digits write in base 256, the most significant first. */
  function WordOfBytes(b0: Byte, b1: Byte, b2: Byte, b3: Byte): Word {
    0x100_0000 * (b0 as bv32) + 0x1_0000 * (b1 as bv32) + 0x100 * (b2 as bv32) + (b3 as bv32)
  }

  /** The digits of a number in base 256. */
  function BytesOfWord(w: Word): (s: seq<Byte>)
    ensures |s| == 4
  {
    [(w / 0x100_0000) as bv8, (w / 0x1_0000 % 0x100) as bv8, (w / 0x100 % 0x100) as bv8, (w % 0x100) as bv8]
  }

  /** The two are inverse to each other. */
  lemma WordOfItsBytes(w: Word)
    ensures var s := BytesOfWord(w); WordOfBytes(s[0], s[1], s[2], s[3]) == w
  {
  }

  lemma BytesOfItsWord(b0: Byte, b1: Byte, b2: Byte, b3: Byte)
    ensures BytesOfWord(WordOfBytes(b0, b1, b2, b3)) == [b0, b1, b2, b3]
  {
  }

  function BytesOfVars(v: Vars): (s: seq<Byte>)
    ensures |s| == 32
  {
    BytesOfWord(v.a) + BytesOfWord(v.b) + BytesOfWord(v.c) + BytesOfWord(v.d) +
    BytesOfWord(v.e) + BytesOfWord(v.f) + BytesOfWord(v.g) + BytesOfWord(v.h)
  }

  function LowByte(x: nat): Byte {
    (x % 256) as bv8
  }

  /** The `n`-byte big-endian representation of `x`, by repeated division. */
  function BigEndian(x: nat, n: nat): (s: seq<Byte>)
    ensures |s| == n
  {
    if n == 0 then [] else BigEndian(x / 256, n - 1) + [LowByte(x)]
  }

  function Power256(n: nat): nat {
    if n == 0 then 1 else 256 * Power256(n - 1)
  }

  /** The number that digits write in base 256. */
  function Number256(s: seq<Byte>): nat {
    if s == [] then 0 else 256 * Number256(s[..|s| - 1]) + s[|s| - 1] as nat
  }

  /** The digits are those of the number, if there is room for them. */
  lemma {:induction false} BigEndianWrites(x: nat, n: nat)
    requires x < Power256(n)
    ensures Number256(BigEndian(x, n)) == x
  {
    if n > 0 {
      BigEndianWrites(x / 256, n - 1);
      LowByteIs(x);
      hide LowByte;
      var s := BigEndian(x, n);
      assert s[..n - 1] == BigEndian(x / 256, n - 1) && s[n - 1] == LowByte(x);
    }
  }

  lemma LowByteIs(x: nat)
    ensures LowByte(x) as nat == x % 256
  {
    ByteOfNumber(x % 256);
  }

  // Section 6.2.2: the computation for one message block.

  function Schedule(block: seq<Byte>, t: nat): Word
    requires |block| == 64 && t < 64
  {
    if t < 16 then
      WordOfBytes(block[4 * t], block[4 * t + 1], block[4 * t + 2], block[4 * t + 3])
    else
      Sum4(SmallSigma1(Schedule(block, t - 2)), Schedule(block, t - 7),
           SmallSigma0(Schedule(block, t - 15)), Schedule(block, t - 16))
  }

  /** The first sixteen words are the block, read as numbers of four bytes, the most significant byte first. */
  lemma ScheduleBeginsWithTheBlock(block: seq<Byte>, t: nat)
    requires |block| == 64 && t < 16
    ensures var w := Schedule(block, t);
            && w == 0x100_0000 * (block[4 * t] as bv32) + 0x1_0000 * (block[4 * t + 1] as bv32)
                    + 0x100 * (block[4 * t + 2] as bv32) + (block[4 * t + 3] as bv32)
            && w >> 24 == block[4 * t] as bv32 && (w >> 16) & 0xFF == block[4 * t + 1] as bv32
            && (w >> 8) & 0xFF == block[4 * t + 2] as bv32 && w & 0xFF == block[4 * t + 3] as bv32
  {
    SlicesOfWord(block[4 * t], block[4 * t + 1], block[4 * t + 2], block[4 * t + 3]);
  }

  lemma SlicesOfWord(b0: Byte, b1: Byte, b2: Byte, b3: Byte)
    ensures var w := WordOfBytes(b0, b1, b2, b3);
            && w >> 24 == b0 as bv32 && (w >> 16) & 0xFF == b1 as bv32
            && (w >> 8) & 0xFF == b2 as bv32 && w & 0xFF == b3 as bv32
  {
  }

  function Round(v: Vars, k: Word, w: Word): Vars {
    var t1 := Sum5(v.h, BigSigma1(v.e), Ch(v.e, v.f, v.g), k, w);
    var t2 := Sum2(BigSigma0(v.a), Maj(v.a, v.b, v.c));
    Vars(Sum2(t1, t2), v.a, v.b, v.c, Sum2(v.d, t1), v.e, v.f, v.g)
  }

  function Rounds(v: Vars, block: seq<Byte>, n: nat): Vars
    requires |block| == 64 && n <= 64
  {
    if n == 0 then v
    else Round(Rounds(v, block, n - 1), RoundConstant(n - 1), Schedule(block, n - 1))
  }

  function AddVars(x: Vars, y: Vars): Vars {
    Vars(Sum2(x.a, y.a), Sum2(x.b, y.b), Sum2(x.c, y.c), Sum2(x.d, y.d),
         Sum2(x.e, y.e), Sum2(x.f, y.f), Sum2(x.g, y.g), Sum2(x.h, y.h))
  }

  function Compress(h: Vars, block: seq<Byte>): Vars
    requires |block| == 64
  {
    AddVars(h, Rounds(h, block, 64))
  }

  /** The first `n` blocks of `data`, in order. */
  function CompressBlocks(h: Vars, data: seq<Byte>, n: nat): Vars
    requires 64 * n <= |data|
  {
    if n == 0 then h
    else Compress(CompressBlocks(h, data, n - 1), data[64 * (n - 1)..64 * n])
  }

  // Section 5.1.1: padding.  The standard counts bits; `k` is the number of zero bits.

  /** `k` zero bits complete a message of `l` bits: l + 1 + k is congruent to 448 modulo 512. */
  predicate CompletesBlock(l: nat, k: nat) {
    (l + 1 + k) % 512 == 448
  }

  /** The smallest non-negative solution. */
  ghost predicate IsZeroBitCount(l: nat, k: nat) {
    CompletesBlock(l, k) && forall j: nat :: CompletesBlock(l, j) ==> k <= j
  }

  function Zeros(n: nat): (s: seq<Byte>)
    ensures |s| == n
  {
    seq(n, _ => 0)
  }

  /** Zero bytes between the byte 0x80 and the length field. */
  function ZeroBytes(len: nat): nat {
    var r := len % 64;
    if r <= 55 then 55 - r else 119 - r
  }

  /** What follows a message of `len` bytes: the bit 1, zero bits, and the 64-bit length field. */
  function Padding(len: nat, lengthField: nat): (p: seq<Byte>)
    ensures |p| == 9 + ZeroBytes(len)
  {
    [0x80] + Zeros(ZeroBytes(len)) + BigEndian(lengthField, 8)
  }

  lemma PaddingFillsBlocks(len: nat)
    ensures len + 9 + ZeroBytes(len) == 64 * (len / 64 + (if len % 64 <= 55 then 1 else 2))
  {
  }

  function Pad(m: seq<Byte>): seq<Byte> {
    m + Padding(|m|, 8 * |m|)
  }

  function Digest(m: seq<Byte>): seq<Byte> {
    PaddingFillsBlocks(|m|);
    var p := Pad(m);
    BytesOfVars(CompressBlocks(H0, p, |p| / 64))
  }

  /**
   The byte-level padding is the standard's: the single one bit with its seven zero bits is the byte
   0x80, so the zero bits the standard asks for are 7 plus eight for each of the `ZeroBytes`.
   */
  lemma ZeroBytesIsTheStandards(len: nat)
    ensures IsZeroBitCount(8 * len, 7 + 8 * ZeroBytes(len))
  {
    var k := 7 + 8 * ZeroBytes(len);
    var q, r := len / 64, len % 64;
    assert 8 * len == 512 * q + 8 * r;
    assert CompletesBlock(8 * len, k);
    forall j: nat | CompletesBlock(8 * len, j)
      ensures k <= j
    {
      if 8 * r + 1 + j < 960 {
        OneResidue(q, 8 * r + 1 + j);
      }
    }
  }

  lemma OneResidue(q: nat, x: nat)
    requires (512 * q + x) % 512 == 448 && x < 960
    ensures x == 448
  {
  }
}
