/**
 The CRC-32 of wifi/iw/bloom.c: table-driven, against the bit-serial register of IEEE 802.3 section
 3.2.9 (generator polynomial 0x04C11DB7, here reflected), with neither preset nor final complement.
 */
module Crc32 {
  import opened Bytes

  // ---------------------------------------------------------------- the bit-serial register

  const POLY: bv32 := 0xEDB8_8320

  function Xor(a: bv32, b: bv32): bv32 {
    a ^ b
  }

  function Half(x: bv32): bv32 {
    x >> 1
  }

  predicate Odd(x: bv32) {
    x & 1 == 1
  }

  /** One clock of the register with input zero. */
  function Shift(crc: bv32): bv32 {
    if Odd(crc) then Xor(Half(crc), POLY) else Half(crc)
  }

  /** One clock with an input bit: the bit decides, with the bit leaving, whether POLY is subtracted. */
  function Feed(crc: bv32, bit: bool): bv32 {
    if Odd(crc) != bit then Xor(Half(crc), POLY) else Half(crc)
  }

  function FeedBits(crc: bv32, bits: seq<bool>): bv32
    decreases |bits|
  {
    if bits == [] then crc else FeedBits(Feed(crc, bits[0]), bits[1..])
  }

  /** The bits of a byte in transmission order, least significant first. */
  function BitsOfByte(b: Byte): (s: seq<bool>)
    ensures |s| == 8
  {
    [b & 1 != 0, b & 2 != 0, b & 4 != 0, b & 8 != 0, b & 16 != 0, b & 32 != 0, b & 64 != 0, b & 128 != 0]
  }

  function BitsOf(buf: seq<Byte>): seq<bool> {
    if buf == [] then [] else BitsOfByte(buf[0]) + BitsOf(buf[1..])
  }

  /** The checksum of a buffer from an initial register. */
  function Crc(crc: bv32, buf: seq<Byte>): bv32 {
    FeedBits(crc, BitsOf(buf))
  }

  lemma {:induction false} FeedBitsConcat(crc: bv32, a: seq<bool>, b: seq<bool>)
    ensures FeedBits(crc, a + b) == FeedBits(FeedBits(crc, a), b)
    decreases |a|
  {
    if a == [] {
      assert a + b == b;
    } else {
      assert (a + b)[1..] == a[1..] + b;
      FeedBitsConcat(Feed(crc, a[0]), a[1..], b);
    }
  }

  lemma {:induction false} BitsOfConcat(a: seq<Byte>, b: seq<Byte>)
    ensures BitsOf(a + b) == BitsOf(a) + BitsOf(b)
  {
    if a == [] {
      assert a + b == b;
    } else {
      assert (a + b)[1..] == a[1..] + b;
      BitsOfConcat(a[1..], b);
    }
  }

  /** Checksumming one buffer after another is checksumming their concatenation. */
  lemma CrcConcat(crc: bv32, a: seq<Byte>, b: seq<Byte>)
    ensures Crc(crc, a + b) == Crc(Crc(crc, a), b)
  {
    BitsOfConcat(a, b);
    FeedBitsConcat(crc, BitsOf(a), BitsOf(b));
  }

  // ---------------------------------------------------------------- the register is linear

  lemma HalfXor(a: bv32, b: bv32)
    ensures Half(Xor(a, b)) == Xor(Half(a), Half(b))
  {
  }

  lemma OddXor(a: bv32, b: bv32)
    ensures Odd(Xor(a, b)) <==> Odd(a) != Odd(b)
  {
  }

  lemma XorCommutes(a: bv32, b: bv32, p: bv32)
    ensures Xor(Xor(a, p), b) == Xor(Xor(a, b), p)
    ensures Xor(a, Xor(b, p)) == Xor(Xor(a, b), p)
    ensures Xor(Xor(a, p), Xor(b, p)) == Xor(a, b)
  {
  }

  lemma ShiftIsLinear(a: bv32, b: bv32)
    ensures Shift(Xor(a, b)) == Xor(Shift(a), Shift(b))
  {
    hide Half, Odd, Xor;
    HalfXor(a, b);
    OddXor(a, b);
    XorCommutes(Half(a), Half(b), POLY);
  }

  function Shifts(x: bv32, n: nat): bv32
    decreases n
  {
    if n == 0 then x else Shifts(Shift(x), n - 1)
  }

  lemma {:induction false} ShiftsAreLinear(a: bv32, b: bv32, n: nat)
    ensures Shifts(Xor(a, b), n) == Xor(Shifts(a, n), Shifts(b, n))
    decreases n
  {
    hide Shift, Xor;
    if n > 0 {
      ShiftIsLinear(a, b);
      ShiftsAreLinear(Shift(a), Shift(b), n - 1);
    }
  }

  // ---------------------------------------------------------------- eight bits at once

  function BitWord(bit: bool): bv32 {
    if bit then 1 else 0
  }

  function Double(x: bv32): bv32 {
    x << 1
  }

  /** The bits as a number, first bit lowest. */
  function WordOfBits(bits: seq<bool>): bv32 {
    if bits == [] then 0 else Xor(BitWord(bits[0]), Double(WordOfBits(bits[1..])))
  }

  lemma BitWordBits(bit: bool)
    ensures Half(BitWord(bit)) == 0 && Odd(BitWord(bit)) == bit
  {
  }

  lemma XorZero(x: bv32)
    ensures Xor(x, 0) == x
  {
  }

  lemma FeedIsShift(crc: bv32, bit: bool)
    ensures Feed(crc, bit) == Shift(Xor(crc, BitWord(bit)))
  {
    hide Half, Odd, Xor, BitWord;
    HalfXor(crc, BitWord(bit));
    OddXor(crc, BitWord(bit));
    BitWordBits(bit);
    XorZero(Half(crc));
  }

  /** The largest number of `n` bits. */
  function Ones(n: nat): bv32
    requires n <= 8
  {
    [0, 1, 3, 7, 15, 31, 63, 127, 255][n]
  }

  predicate Fits(x: bv32, n: nat) {
    n <= 8 && x <= Ones(n)
  }

  lemma DoubleIsUndone(x: bv32, n: nat, bit: bool)
    requires n < 8 && Fits(x, n)
    ensures Fits(Xor(BitWord(bit), Double(x)), n + 1) && Shift(Double(x)) == x
  {
  }

  lemma NothingFits()
    ensures Fits(0, 0)
  {
  }

  lemma {:induction false} WordOfBitsFits(bits: seq<bool>)
    requires |bits| <= 8
    ensures Fits(WordOfBits(bits), |bits|)
  {
    hide Xor, Double, BitWord, Shift, Fits;
    if bits == [] {
      NothingFits();
    } else {
      WordOfBitsFits(bits[1..]);
      DoubleIsUndone(WordOfBits(bits[1..]), |bits[1..]|, bits[0]);
    }
  }

  /** Feeding at most eight bits is clocking the register with those bits added in first. */
  lemma {:induction false} FeedBitsIsShifts(crc: bv32, bits: seq<bool>)
    requires |bits| <= 8
    ensures FeedBits(crc, bits) == Shifts(Xor(crc, WordOfBits(bits)), |bits|)
    decreases |bits|
  {
    hide Shift, Feed, BitWord, Double, Fits;
    if bits == [] {
      XorZero(crc);
    } else {
      var b, w := BitWord(bits[0]), WordOfBits(bits[1..]);
      hide Xor;
      FeedIsShift(crc, bits[0]);
      FeedBitsIsShifts(Feed(crc, bits[0]), bits[1..]);
      XorCommutes(crc, b, Double(w));
      ShiftIsLinear(Xor(crc, b), Double(w));
      WordOfBitsFits(bits[1..]);
      DoubleIsUndone(w, |bits| - 1, bits[0]);
    }
  }

  /** Horner's rule over the bits of a byte, read as numbers. */
  lemma ByteByHorner(b: Byte)
    ensures Xor(BitWord(b & 1 != 0), Double(Xor(BitWord(b & 2 != 0), Double(
            Xor(BitWord(b & 4 != 0), Double(Xor(BitWord(b & 8 != 0), Double(
            Xor(BitWord(b & 16 != 0), Double(Xor(BitWord(b & 32 != 0), Double(
            Xor(BitWord(b & 64 != 0), Double(Xor(BitWord(b & 128 != 0), Double(0)))))))))))))))) == b as bv32
  {
  }

  lemma WordOfEight(s: seq<bool>)
    requires |s| == 8
    ensures WordOfBits(s) ==
            Xor(BitWord(s[0]), Double(Xor(BitWord(s[1]), Double(Xor(BitWord(s[2]), Double(Xor(BitWord(s[3]), Double(
            Xor(BitWord(s[4]), Double(Xor(BitWord(s[5]), Double(Xor(BitWord(s[6]), Double(Xor(BitWord(s[7]), Double(0))))))))))))))))
  {
    hide *;
    WordStep(s, 7); WordStep(s, 6); WordStep(s, 5); WordStep(s, 4);
    WordStep(s, 3); WordStep(s, 2); WordStep(s, 1); WordStep(s, 0);
    assert s[0..] == s;
    WordOfNone(s[8..]);
  }

  lemma WordOfNone(s: seq<bool>)
    requires s == []
    ensures WordOfBits(s) == 0
  {
  }

  lemma WordStep(s: seq<bool>, k: nat)
    requires k < |s|
    ensures WordOfBits(s[k..]) == Xor(BitWord(s[k]), Double(WordOfBits(s[k + 1..])))
  {
    hide Xor, BitWord, Double;
    assert s[k..][1..] == s[k + 1..];
  }

  lemma WordOfByte(b: Byte)
    ensures WordOfBits(BitsOfByte(b)) == b as bv32
  {
    hide Xor, BitWord, Double, WordOfBits;
    WordOfEight(BitsOfByte(b));
    ByteByHorner(b);
  }

  // ---------------------------------------------------------------- the table

  /** Sixteen entries of `crc32_tab`, from entry 16 * `h`. */
  function TableRow(h: nat): (r: seq<bv32>)
    requires h < 16
    ensures |r| == 16
  {
    if h == 0 then
      [0x00000000, 0x77073096, 0xee0e612c, 0x990951ba, 0x076dc419, 0x706af48f, 0xe963a535, 0x9e6495a3] +
      [0x0edb8832, 0x79dcb8a4, 0xe0d5e91e, 0x97d2d988, 0x09b64c2b, 0x7eb17cbd, 0xe7b82d07, 0x90bf1d91]
    else if h == 1 then
      [0x1db71064, 0x6ab020f2, 0xf3b97148, 0x84be41de, 0x1adad47d, 0x6ddde4eb, 0xf4d4b551, 0x83d385c7] +
      [0x136c9856, 0x646ba8c0, 0xfd62f97a, 0x8a65c9ec, 0x14015c4f, 0x63066cd9, 0xfa0f3d63, 0x8d080df5]
    else if h == 2 then
      [0x3b6e20c8, 0x4c69105e, 0xd56041e4, 0xa2677172, 0x3c03e4d1, 0x4b04d447, 0xd20d85fd, 0xa50ab56b] +
      [0x35b5a8fa, 0x42b2986c, 0xdbbbc9d6, 0xacbcf940, 0x32d86ce3, 0x45df5c75, 0xdcd60dcf, 0xabd13d59]
    else if h == 3 then
      [0x26d930ac, 0x51de003a, 0xc8d75180, 0xbfd06116, 0x21b4f4b5, 0x56b3c423, 0xcfba9599, 0xb8bda50f] +
      [0x2802b89e, 0x5f058808, 0xc60cd9b2, 0xb10be924, 0x2f6f7c87, 0x58684c11, 0xc1611dab, 0xb6662d3d]
    else if h == 4 then
      [0x76dc4190, 0x01db7106, 0x98d220bc, 0xefd5102a, 0x71b18589, 0x06b6b51f, 0x9fbfe4a5, 0xe8b8d433] +
      [0x7807c9a2, 0x0f00f934, 0x9609a88e, 0xe10e9818, 0x7f6a0dbb, 0x086d3d2d, 0x91646c97, 0xe6635c01]
    else if h == 5 then
      [0x6b6b51f4, 0x1c6c6162, 0x856530d8, 0xf262004e, 0x6c0695ed, 0x1b01a57b, 0x8208f4c1, 0xf50fc457] +
      [0x65b0d9c6, 0x12b7e950, 0x8bbeb8ea, 0xfcb9887c, 0x62dd1ddf, 0x15da2d49, 0x8cd37cf3, 0xfbd44c65]
    else if h == 6 then
      [0x4db26158, 0x3ab551ce, 0xa3bc0074, 0xd4bb30e2, 0x4adfa541, 0x3dd895d7, 0xa4d1c46d, 0xd3d6f4fb] +
      [0x4369e96a, 0x346ed9fc, 0xad678846, 0xda60b8d0, 0x44042d73, 0x33031de5, 0xaa0a4c5f, 0xdd0d7cc9]
    else if h == 7 then
      [0x5005713c, 0x270241aa, 0xbe0b1010, 0xc90c2086, 0x5768b525, 0x206f85b3, 0xb966d409, 0xce61e49f] +
      [0x5edef90e, 0x29d9c998, 0xb0d09822, 0xc7d7a8b4, 0x59b33d17, 0x2eb40d81, 0xb7bd5c3b, 0xc0ba6cad]
    else if h == 8 then
      [0xedb88320, 0x9abfb3b6, 0x03b6e20c, 0x74b1d29a, 0xead54739, 0x9dd277af, 0x04db2615, 0x73dc1683] +
      [0xe3630b12, 0x94643b84, 0x0d6d6a3e, 0x7a6a5aa8, 0xe40ecf0b, 0x9309ff9d, 0x0a00ae27, 0x7d079eb1]
    else if h == 9 then
      [0xf00f9344, 0x8708a3d2, 0x1e01f268, 0x6906c2fe, 0xf762575d, 0x806567cb, 0x196c3671, 0x6e6b06e7] +
      [0xfed41b76, 0x89d32be0, 0x10da7a5a, 0x67dd4acc, 0xf9b9df6f, 0x8ebeeff9, 0x17b7be43, 0x60b08ed5]
    else if h == 10 then
      [0xd6d6a3e8, 0xa1d1937e, 0x38d8c2c4, 0x4fdff252, 0xd1bb67f1, 0xa6bc5767, 0x3fb506dd, 0x48b2364b] +
      [0xd80d2bda, 0xaf0a1b4c, 0x36034af6, 0x41047a60, 0xdf60efc3, 0xa867df55, 0x316e8eef, 0x4669be79]
    else if h == 11 then
      [0xcb61b38c, 0xbc66831a, 0x256fd2a0, 0x5268e236, 0xcc0c7795, 0xbb0b4703, 0x220216b9, 0x5505262f] +
      [0xc5ba3bbe, 0xb2bd0b28, 0x2bb45a92, 0x5cb36a04, 0xc2d7ffa7, 0xb5d0cf31, 0x2cd99e8b, 0x5bdeae1d]
    else if h == 12 then
      [0x9b64c2b0, 0xec63f226, 0x756aa39c, 0x026d930a, 0x9c0906a9, 0xeb0e363f, 0x72076785, 0x05005713] +
      [0x95bf4a82, 0xe2b87a14, 0x7bb12bae, 0x0cb61b38, 0x92d28e9b, 0xe5d5be0d, 0x7cdcefb7, 0x0bdbdf21]
    else if h == 13 then
      [0x86d3d2d4, 0xf1d4e242, 0x68ddb3f8, 0x1fda836e, 0x81be16cd, 0xf6b9265b, 0x6fb077e1, 0x18b74777] +
      [0x88085ae6, 0xff0f6a70, 0x66063bca, 0x11010b5c, 0x8f659eff, 0xf862ae69, 0x616bffd3, 0x166ccf45]
    else if h == 14 then
      [0xa00ae278, 0xd70dd2ee, 0x4e048354, 0x3903b3c2, 0xa7672661, 0xd06016f7, 0x4969474d, 0x3e6e77db] +
      [0xaed16a4a, 0xd9d65adc, 0x40df0b66, 0x37d83bf0, 0xa9bcae53, 0xdebb9ec5, 0x47b2cf7f, 0x30b5ffe9]
    else
      [0xbdbdf21c, 0xcabac28a, 0x53b39330, 0x24b4a3a6, 0xbad03605, 0xcdd70693, 0x54de5729, 0x23d967bf] +
      [0xb3667a2e, 0xc4614ab8, 0x5d681b02, 0x2a6f2b94, 0xb40bbe37, 0xc30c8ea1, 0x5a05df1b, 0x2d02ef8d]
  }

  /** `crc32_tab[i]` */
  function Table(i: nat): bv32
    requires i < 256
  {
    TableRow(i / 16)[i % 16]
  }

  /** The first row of the table, with `base` added to every entry. */
  function RowFrom(base: bv32): (r: seq<bv32>)
    ensures |r| == 16
  {
    [base ^ 0x00000000, base ^ 0x77073096, base ^ 0xee0e612c, base ^ 0x990951ba,
     base ^ 0x076dc419, base ^ 0x706af48f, base ^ 0xe963a535, base ^ 0x9e6495a3] +
    [base ^ 0x0edb8832, base ^ 0x79dcb8a4, base ^ 0xe0d5e91e, base ^ 0x97d2d988,
     base ^ 0x09b64c2b, base ^ 0x7eb17cbd, base ^ 0xe7b82d07, base ^ 0x90bf1d91]
  }

  lemma Translates0()
    ensures TableRow(0) == RowFrom(0x00000000)
    ensures TableRow(1) == RowFrom(0x1db71064)
    ensures TableRow(2) == RowFrom(0x3b6e20c8)
    ensures TableRow(3) == RowFrom(0x26d930ac)
  {
  }

  lemma Translates1()
    ensures TableRow(4) == RowFrom(0x76dc4190)
    ensures TableRow(5) == RowFrom(0x6b6b51f4)
    ensures TableRow(6) == RowFrom(0x4db26158)
    ensures TableRow(7) == RowFrom(0x5005713c)
  {
  }

  lemma Translates2()
    ensures TableRow(8) == RowFrom(0xedb88320)
    ensures TableRow(9) == RowFrom(0xf00f9344)
    ensures TableRow(10) == RowFrom(0xd6d6a3e8)
    ensures TableRow(11) == RowFrom(0xcb61b38c)
  {
  }

  lemma Translates3()
    ensures TableRow(12) == RowFrom(0x9b64c2b0)
    ensures TableRow(13) == RowFrom(0x86d3d2d4)
    ensures TableRow(14) == RowFrom(0xa00ae278)
    ensures TableRow(15) == RowFrom(0xbdbdf21c)
  {
  }

  lemma RowFromStart(base: bv32)
    ensures RowFrom(base)[0] == base
  {
  }

  lemma RowIsTranslate(h: nat)
    requires h < 16
    ensures TableRow(h) == RowFrom(TableRow(h)[0])
  {
    hide TableRow, RowFrom;
    Translates0(); Translates1(); Translates2(); Translates3();
    var row := TableRow(h);
    if h == 0 { RowFromStart(0x00000000); } else if h == 1 { RowFromStart(0x1db71064); }
    else if h == 2 { RowFromStart(0x3b6e20c8); } else if h == 3 { RowFromStart(0x26d930ac); }
    else if h == 4 { RowFromStart(0x76dc4190); } else if h == 5 { RowFromStart(0x6b6b51f4); }
    else if h == 6 { RowFromStart(0x4db26158); } else if h == 7 { RowFromStart(0x5005713c); }
    else if h == 8 { RowFromStart(0xedb88320); } else if h == 9 { RowFromStart(0xf00f9344); }
    else if h == 10 { RowFromStart(0xd6d6a3e8); } else if h == 11 { RowFromStart(0xcb61b38c); }
    else if h == 12 { RowFromStart(0x9b64c2b0); } else if h == 13 { RowFromStart(0x86d3d2d4); }
    else if h == 14 { RowFromStart(0xa00ae278); } else { RowFromStart(0xbdbdf21c); }
  }

  /** Eight clocks, written out. */
  function Shift8(x: bv32): bv32 {
    Shift(Shift(Shift(Shift(Shift(Shift(Shift(Shift(x))))))))
  }

  lemma FirstRow()
    ensures Shift8(0) == 0x00000000
    ensures Shift8(1) == 0x77073096
    ensures Shift8(2) == 0xee0e612c
    ensures Shift8(3) == 0x990951ba
    ensures Shift8(4) == 0x076dc419
    ensures Shift8(5) == 0x706af48f
    ensures Shift8(6) == 0xe963a535
    ensures Shift8(7) == 0x9e6495a3
    ensures Shift8(8) == 0x0edb8832
    ensures Shift8(9) == 0x79dcb8a4
    ensures Shift8(10) == 0xe0d5e91e
    ensures Shift8(11) == 0x97d2d988
    ensures Shift8(12) == 0x09b64c2b
    ensures Shift8(13) == 0x7eb17cbd
    ensures Shift8(14) == 0xe7b82d07
    ensures Shift8(15) == 0x90bf1d91
  {
  }

  lemma FirstColumn()
    ensures Shift8(0) == 0x00000000
    ensures Shift8(16) == 0x1db71064
    ensures Shift8(32) == 0x3b6e20c8
    ensures Shift8(48) == 0x26d930ac
    ensures Shift8(64) == 0x76dc4190
    ensures Shift8(80) == 0x6b6b51f4
    ensures Shift8(96) == 0x4db26158
    ensures Shift8(112) == 0x5005713c
    ensures Shift8(128) == 0xedb88320
    ensures Shift8(144) == 0xf00f9344
    ensures Shift8(160) == 0xd6d6a3e8
    ensures Shift8(176) == 0xcb61b38c
    ensures Shift8(192) == 0x9b64c2b0
    ensures Shift8(208) == 0x86d3d2d4
    ensures Shift8(224) == 0xa00ae278
    ensures Shift8(240) == 0xbdbdf21c
  {
  }

  lemma FirstRowAt(y: bv32)
    requires y < 16
    ensures RowFrom(0)[y as int] == Shift8(y)
  {
    hide Shift8, RowFrom;
    FirstRow();
    EntriesOfFirstRow();
    if y == 0 { } else if y == 1 { } else if y == 2 { } else if y == 3 { } else if y == 4 { }
    else if y == 5 { } else if y == 6 { } else if y == 7 { } else if y == 8 { } else if y == 9 { }
    else if y == 10 { } else if y == 11 { } else if y == 12 { } else if y == 13 { } else if y == 14 { }
    else { }
  }

  lemma EntriesOfFirstRow()
    ensures RowFrom(0)[0] == 0x00000000
    ensures RowFrom(0)[1] == 0x77073096
    ensures RowFrom(0)[2] == 0xee0e612c
    ensures RowFrom(0)[3] == 0x990951ba
    ensures RowFrom(0)[4] == 0x076dc419
    ensures RowFrom(0)[5] == 0x706af48f
    ensures RowFrom(0)[6] == 0xe963a535
    ensures RowFrom(0)[7] == 0x9e6495a3
    ensures RowFrom(0)[8] == 0x0edb8832
    ensures RowFrom(0)[9] == 0x79dcb8a4
    ensures RowFrom(0)[10] == 0xe0d5e91e
    ensures RowFrom(0)[11] == 0x97d2d988
    ensures RowFrom(0)[12] == 0x09b64c2b
    ensures RowFrom(0)[13] == 0x7eb17cbd
    ensures RowFrom(0)[14] == 0xe7b82d07
    ensures RowFrom(0)[15] == 0x90bf1d91
  {
  }

  lemma ColumnAt(y: bv32)
    requires y & 0xF0 == y
    ensures (y >> 4) as int < 16 && TableRow((y >> 4) as int)[0] == Shift8(y)
  {
    hide Shift8, TableRow, RowFrom;
    FirstColumn();
    Translates0(); Translates1(); Translates2(); Translates3();
    if y == 0 { RowFromStart(0x00000000); } else if y == 16 { RowFromStart(0x1db71064); }
    else if y == 32 { RowFromStart(0x3b6e20c8); } else if y == 48 { RowFromStart(0x26d930ac); }
    else if y == 64 { RowFromStart(0x76dc4190); } else if y == 80 { RowFromStart(0x6b6b51f4); }
    else if y == 96 { RowFromStart(0x4db26158); } else if y == 112 { RowFromStart(0x5005713c); }
    else if y == 128 { RowFromStart(0xedb88320); } else if y == 144 { RowFromStart(0xf00f9344); }
    else if y == 160 { RowFromStart(0xd6d6a3e8); } else if y == 176 { RowFromStart(0xcb61b38c); }
    else if y == 192 { RowFromStart(0x9b64c2b0); } else if y == 208 { RowFromStart(0x86d3d2d4); }
    else if y == 224 { RowFromStart(0xa00ae278); } else { RowFromStart(0xbdbdf21c); }
  }

  lemma TranslatedEntries(base: bv32)
    ensures RowFrom(base)[0] == base ^ 0x00000000
    ensures RowFrom(base)[1] == base ^ 0x77073096
    ensures RowFrom(base)[2] == base ^ 0xee0e612c
    ensures RowFrom(base)[3] == base ^ 0x990951ba
    ensures RowFrom(base)[4] == base ^ 0x076dc419
    ensures RowFrom(base)[5] == base ^ 0x706af48f
    ensures RowFrom(base)[6] == base ^ 0xe963a535
    ensures RowFrom(base)[7] == base ^ 0x9e6495a3
    ensures RowFrom(base)[8] == base ^ 0x0edb8832
    ensures RowFrom(base)[9] == base ^ 0x79dcb8a4
    ensures RowFrom(base)[10] == base ^ 0xe0d5e91e
    ensures RowFrom(base)[11] == base ^ 0x97d2d988
    ensures RowFrom(base)[12] == base ^ 0x09b64c2b
    ensures RowFrom(base)[13] == base ^ 0x7eb17cbd
    ensures RowFrom(base)[14] == base ^ 0xe7b82d07
    ensures RowFrom(base)[15] == base ^ 0x90bf1d91
  {
  }

  lemma TranslatedEntry(base: bv32, k: nat)
    requires k < 16
    ensures RowFrom(base)[k] == Xor(base, RowFrom(0)[k])
  {
    hide RowFrom;
    EntriesOfFirstRow();
    TranslatedEntries(base);
    if k == 0 { } else if k == 1 { } else if k == 2 { } else if k == 3 { } else if k == 4 { }
    else if k == 5 { } else if k == 6 { } else if k == 7 { } else if k == 8 { } else if k == 9 { }
    else if k == 10 { } else if k == 11 { } else if k == 12 { } else if k == 13 { } else if k == 14 { }
    else { }
  }

  lemma Shift8IsShifts(x: bv32)
    ensures Shift8(x) == Shifts(x, 8)
  {
    hide Shift;
  }

  lemma SplitIndex(x: bv32)
    requires x < 256
    ensures x as int == 16 * (x >> 4) as int + (x & 15) as int && (x >> 4) as int < 16 && (x & 15) as int < 16
    ensures x == Xor(x & 0xF0, x & 15) && (x & 0xF0) & 0xF0 == x & 0xF0 && (x & 0xF0) >> 4 == x >> 4
  {
  }

  /** Every entry of the table is its index, clocked eight times. */
  lemma TableEntry(x: bv32)
    requires x < 256
    ensures Table(x as int) == Shifts(x, 8)
  {
    hide Shift8, TableRow, RowFrom, Xor, Shifts;
    SplitIndex(x);
    var h, k := (x >> 4) as int, (x & 15) as int;
    assert x as int / 16 == h && x as int % 16 == k;
    RowIsTranslate(h);
    TranslatedEntry(TableRow(h)[0], k);
    FirstRowAt(x & 15);
    ColumnAt(x & 0xF0);
    Shift8IsShifts(x & 0xF0);
    Shift8IsShifts(x & 15);
    ShiftsAreLinear(x & 0xF0, x & 15, 8);
  }

  // ---------------------------------------------------------------- the loop

  lemma HighBytesShiftOut(x: bv32)
    requires x & 0xFF == 0
    ensures Shift8(x) == x >> 8
  {
  }

  function LowByte(x: bv32): bv32 {
    x & 0xFF
  }

  function HighBytes(x: bv32): bv32 {
    x & 0xFFFF_FF00
  }

  function DropByte(x: bv32): bv32 {
    x >> 8
  }

  lemma LowByteIsSmall(x: bv32)
    ensures LowByte(x) < 256 && LowByte(x) as int < 256
  {
  }

  lemma SplitWord(x: bv32)
    ensures x == Xor(LowByte(x), HighBytes(x))
  {
  }

  lemma HighBytesDropped(x: bv32)
    ensures HighBytes(x) & 0xFF == 0 && HighBytes(x) >> 8 == DropByte(x)
  {
  }

  lemma DropByteOfSum(crc: bv32, b: Byte)
    ensures DropByte(Xor(crc, b as bv32)) == DropByte(crc)
  {
  }

  /** Clocking eight times looks the low byte up and moves the others down. */
  lemma EightClocks(x: bv32)
    ensures LowByte(x) as int < 256 && Shifts(x, 8) == Xor(Table(LowByte(x) as int), DropByte(x))
  {
    hide Shifts, Table, Shift8, Xor, LowByte, HighBytes, DropByte;
    SplitWord(x);
    LowByteIsSmall(x);
    HighBytesDropped(x);
    ShiftsAreLinear(LowByte(x), HighBytes(x), 8);
    TableEntry(LowByte(x));
    HighBytesShiftOut(HighBytes(x));
    Shift8IsShifts(HighBytes(x));
  }

  /** The assignment in the loop of `crc32`. */
  function TableUpdate(crc: bv32, b: Byte): bv32 {
    LowByteIsSmall(Xor(crc, b as bv32));
    Xor(Table(LowByte(Xor(crc, b as bv32)) as int), DropByte(crc))
  }

  /** One table step feeds the eight bits of a byte. */
  lemma TableStep(crc: bv32, b: Byte)
    ensures TableUpdate(crc, b) == FeedBits(crc, BitsOfByte(b))
  {
    hide Shifts, FeedBits, Table, BitsOfByte, Xor, LowByte, DropByte;
    WordOfByte(b);
    FeedBitsIsShifts(crc, BitsOfByte(b));
    EightClocks(Xor(crc, b as bv32));
    DropByteOfSum(crc, b);
  }

  /** `crc32` */
  method UpdateCrc(init: bv32, buf: seq<Byte>) returns (crc: bv32)
    ensures crc == Crc(init, buf)
  {
    hide TableUpdate, FeedBits, BitsOfByte, Crc;
    crc := init;
    var p := 0;
    CrcOfNone(init);
    while p < |buf|
      invariant 0 <= p <= |buf|
      invariant crc == Crc(init, buf[..p])
    {
      TableStep(crc, buf[p]);
      CrcOfOne(crc, buf[p]);
      CrcConcat(init, buf[..p], [buf[p]]);
      assert buf[..p] + [buf[p]] == buf[..p + 1];
      crc := TableUpdate(crc, buf[p]);
      p := p + 1;
    }
    assert buf[..p] == buf;
  }

  lemma CrcOfNone(crc: bv32)
    ensures Crc(crc, []) == crc
  {
  }

  lemma CrcOfOne(crc: bv32, b: Byte)
    ensures Crc(crc, [b]) == FeedBits(crc, BitsOfByte(b))
  {
    hide FeedBits, BitsOfByte;
    assert BitsOf([b]) == BitsOfByte(b) + BitsOf([b][1..]);
    assert BitsOf([b]) == BitsOfByte(b);
  }
}
