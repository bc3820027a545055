/**
 The context, the compression function and the streaming entry points of wifi/iw/sha256.c, updating
 the C structure's fields and local arrays in place.
 */
module Sha256 {
  import opened Bytes
  import opened Fips180
  import opened Sha256Macros
  import opened Sha256Streaming

  /** Eight words of an array, read as a to h. */
  ghost function VarsIn(S: array<Word>): Vars
    requires S.Length == 8
    reads S
  {
    Vars(S[0], S[1], S[2], S[3], S[4], S[5], S[6], S[7])
  }

  /** One RND and the rotation after it, in terms of the macros. */
  function RndRotate(v: Vars, k: bv64, w: Word): Vars {
    var t0 := AssignSum5(v.h, Sigma1(v.e), ChMacro(v.e, v.f, v.g), k, w);
    var t1 := AssignSum2(Sigma0(v.a), MajMacro(v.a, v.b, v.c));
    Vars(Sum2(t0, t1), v.a, v.b, v.c, Sum2(v.d, t0), v.e, v.f, v.g)
  }

  /** The in-place round is the standard's eight simultaneous assignments. */
  lemma RndRotateIsRound(v: Vars, k: bv64, w: Word)
    ensures RndRotate(v, k, w) == Round(v, Low32(k), w)
  {
    hide ChMacro, MajMacro, Sigma0, Sigma1, AssignSum2, AssignSum5, Sum2, Sum5,
      Ch, Maj, BigSigma0, BigSigma1, Low32, Widen;
    BigSigmaMacros(v.e);
    BigSigmaMacros(v.a);
    LogicalMacros(v.e, v.f, v.g);
    LogicalMacros(v.a, v.b, v.c);
    AssignedSum5(v.h, Sigma1(v.e), ChMacro(v.e, v.f, v.g), k, w, BigSigma1(v.e));
    AssignedSum2(Sigma0(v.a), MajMacro(v.a, v.b, v.c), BigSigma0(v.a));
  }

  /** LOAD32B */
  function Load32B(b0: Byte, b1: Byte, b2: Byte, b3: Byte): Word {
    ((b0 as bv32) << 24) | ((b1 as bv32) << 16) | ((b2 as bv32) << 8) | (b3 as bv32)
  }

  /** STORE32B */
  function Store32B(w: Word): (s: seq<Byte>)
    ensures |s| == 4
  {
    [((w >> 24) & 0xFF) as bv8, ((w >> 16) & 0xFF) as bv8, ((w >> 8) & 0xFF) as bv8, (w & 0xFF) as bv8]
  }

  /** The shifts read and write numbers in base 256, most significant digit first. */
  lemma Load32BIsWordOfBytes(b0: Byte, b1: Byte, b2: Byte, b3: Byte)
    ensures Load32B(b0, b1, b2, b3) == WordOfBytes(b0, b1, b2, b3)
  {
  }

  lemma Store32BIsBytesOfWord(w: Word)
    ensures Store32B(w) == BytesOfWord(w)
  {
  }

  /** The loops that fill W[0..63] from a block. */
  method FillSchedule(block: seq<Byte>, W: array<Word>)
    requires |block| == 64 && W.Length == 64
    modifies W
    ensures forall j :: 0 <= j < 64 ==> W[j] == Schedule(block, j)
  {
    hide Gamma0, Gamma1, AssignSum4, Sum4, SmallSigma0, SmallSigma1, Widen, WordOfBytes, Load32B;
    for i := 0 to 16
      invariant forall j :: 0 <= j < i ==> W[j] == Schedule(block, j)
    {
      Load32BIsWordOfBytes(block[4 * i], block[4 * i + 1], block[4 * i + 2], block[4 * i + 3]);
      W[i] := Load32B(block[4 * i], block[4 * i + 1], block[4 * i + 2], block[4 * i + 3]);
    }
    for i := 16 to 64
      invariant forall j :: 0 <= j < i ==> W[j] == Schedule(block, j)
    {
      SmallSigmaMacros(W[i - 2]);
      SmallSigmaMacros(W[i - 15]);
      AssignedSum4(Gamma1(W[i - 2]), W[i - 7], Gamma0(W[i - 15]), W[i - 16],
                   SmallSigma1(W[i - 2]), SmallSigma0(W[i - 15]));
      W[i] := AssignSum4(Gamma1(W[i - 2]), W[i - 7], Gamma0(W[i - 15]), W[i - 16]);
    }
  }

  /** The body of the compression loop: RND on S[0..7], then the registers move up by one. */
  method RndAndRotate(S: array<Word>, k: bv64, w: Word)
    requires S.Length == 8
    modifies S
    ensures VarsIn(S) == RndRotate(old(VarsIn(S)), k, w)
  {
    hide ChMacro, MajMacro, Sigma0, Sigma1, AssignSum2, AssignSum5, Sum2;
    var t0 := AssignSum5(S[7], Sigma1(S[4]), ChMacro(S[4], S[5], S[6]), k, w);
    var t1 := AssignSum2(Sigma0(S[0]), MajMacro(S[0], S[1], S[2]));
    S[3] := Sum2(S[3], t0);
    S[7] := Sum2(t0, t1);
    var t := S[7];
    S[7] := S[6]; S[6] := S[5]; S[5] := S[4];
    S[4] := S[3]; S[3] := S[2]; S[2] := S[1]; S[1] := S[0]; S[0] := t;
  }

  /** The copy of the state into S and the 64 rounds on it. */
  method RunRounds(state: array<Word>, block: seq<Byte>) returns (S: array<Word>)
    requires state.Length == 8 && |block| == 64
    ensures fresh(S) && S.Length == 8
    ensures VarsIn(S) == Rounds(VarsIn(state), block, 64)
  {
    hide RndRotate, Round, Schedule;
    S := new Word[8];
    for i := 0 to 8
      invariant forall j :: 0 <= j < i ==> S[j] == state[j]
    {
      S[i] := state[i];
    }
    var W := new Word[64];
    FillSchedule(block, W);
    for i := 0 to 64
      invariant forall j :: 0 <= j < 64 ==> W[j] == Schedule(block, j)
      invariant VarsIn(S) == Rounds(VarsIn(state), block, i)
    {
      RndRotateIsRound(VarsIn(S), K[i], W[i]);
      RndAndRotate(S, K[i], W[i]);
    }
  }

  /** The feedback loop. */
  method AddInto(state: array<Word>, S: array<Word>)
    requires state.Length == 8 && S.Length == 8 && state != S
    modifies state
    ensures forall j :: 0 <= j < 8 ==> state[j] == Sum2(old(state[j]), S[j])
  {
    hide Sum2;
    for i := 0 to 8
      invariant forall j :: 0 <= j < i ==> state[j] == Sum2(old(state[j]), S[j])
      invariant forall j :: i <= j < 8 ==> state[j] == old(state[j])
    {
      state[i] := Sum2(state[i], S[i]);
    }
  }

  /** `sha256_compress`, on the words of a state. */
  method CompressWords(state: array<Word>, block: seq<Byte>)
    requires state.Length == 8 && |block| == 64
    modifies state
    ensures VarsIn(state) == Compress(old(VarsIn(state)), block)
  {
    hide Rounds, Sum2;
    var S := RunRounds(state, block);
    AddInto(state, S);
  }

  /** `struct sha256_state`. */
  class Sha256State {
    const state: array<Word>
    var length: nat
    var curlen: nat
    const buf: array<Byte>

    /** The C types: eight words, a 64-byte buffer, a 64-bit counter. */
    ghost predicate Valid()
      reads this
    {
      state.Length == 8 && buf.Length == 64 && length < TWO64
    }

    ghost function Abs(): Context
      requires Valid() && curlen <= 64
      reads this, state, buf
    {
      Context(VarsIn(state), length, buf[..curlen])
    }

    /** `sha256_init` */
    constructor ()
      ensures Valid() && fresh(state) && fresh(buf) && curlen == 0
      ensures Abs() == INITIAL
    {
      state := new Word[] [0x6A09E667, 0xBB67AE85, 0x3C6EF372, 0xA54FF53A, 0x510E527F, 0x9B05688C, 0x1F83D9AB, 0x5BE0CD19];
      buf := new Byte[64];
      length, curlen := 0, 0;
    }

    /** The direct path: a whole block is compressed straight from the input. */
    method TakeBlock(block: seq<Byte>)
      requires Valid() && curlen == 0 && |block| == 64
      modifies this`length, state
      ensures Valid() && Abs() == Absorb(old(Abs()), block)
    {
      hide Compress, Absorb, VarsIn;
      ghost var c := Abs();
      CompressWords(state, block);
      length := (length + 512) % TWO64;
      assert c.tail + block == block;
      AbsorbBlock(c, block);
    }

    /** The buffered path: bytes are appended to `buf`, which is compressed once it is full. */
    method TakePiece(piece: seq<Byte>)
      requires Valid() && curlen + |piece| <= 64
      modifies this, state, buf
      ensures Valid() && curlen < 64 && Abs() == Absorb(old(Abs()), piece)
    {
      hide Compress, Absorb, VarsIn;
      ghost var c := Abs();
      forall j | 0 <= j < |piece| {
        buf[curlen + j] := piece[j];
      }
      curlen := curlen + |piece|;
      assert buf[..curlen] == c.tail + piece;
      if curlen == 64 {
        assert buf[..] == buf[..curlen];
        CompressWords(state, buf[..]);
        length := (length + 512) % TWO64;
        curlen := 0;
        AbsorbBlock(c, piece);
      } else {
        AbsorbShort(c, piece);
      }
    }

    /** `sha256_process` */
    method Process(input: seq<Byte>) returns (r: int)
      requires Valid()
      modifies this, state, buf
      ensures Valid()
      ensures old(curlen) >= 64 ==>
                r == -1 && curlen == old(curlen) && length == old(length) &&
                state[..] == old(state[..]) && buf[..] == old(buf[..])
      ensures old(curlen) < 64 ==> r == 0 && curlen < 64 && Abs() == Absorb(old(Abs()), input)
    {
      hide Absorb, VarsIn;
      if curlen >= buf.Length {
        return -1;
      }
      var i := 0;
      AbsorbShort(Abs(), []);
      while i < |input|
        invariant 0 <= i <= |input| && Valid() && curlen < 64
        invariant Abs() == Absorb(old(Abs()), input[..i])
      {
        var inlen := |input| - i;
        var n := if curlen == 0 && inlen >= 64 then 64 else if inlen < 64 - curlen then inlen else 64 - curlen;
        AbsorbStep(old(Abs()), input, i, n);
        if curlen == 0 && inlen >= 64 {
          TakeBlock(input[i..i + 64]);
        } else {
          TakePiece(input[i..i + n]);
        }
        i := i + n;
      }
      assert input[..i] == input;
      return 0;
    }

    /** The zero-filling loops of `sha256_done`: `buf` is zero from `curlen` up to `end`. */
    method FillZeros(end: nat)
      requires Valid() && curlen <= end <= 64
      modifies this`curlen, buf
      ensures curlen == end && buf[..end] == old(buf[..curlen]) + Zeros(end - old(curlen))
    {
      while curlen < end
        invariant old(curlen) <= curlen <= end
        invariant buf[..curlen] == old(buf[..curlen]) + Zeros(curlen - old(curlen))
      {
        buf[curlen] := 0;
        curlen := curlen + 1;
      }
    }

    /** `STORE64B(md->buf + 56, md->length)` */
    method StoreLength()
      requires Valid()
      modifies buf
      ensures buf[..] == old(buf[..56]) + BigEndian(length, 8)
    {
      var bytes := Store64B(length);
      forall j | 0 <= j < 8 {
        buf[56 + j] := bytes[j];
      }
      Store64BIsBigEndian(length);
    }

    /** The end of `sha256_done`: the digest, word by word. */
    method StoreDigest(out: array<Byte>)
      requires Valid() && out.Length == 32
      modifies out
      ensures out[..] == BytesOfVars(VarsIn(state))
    {
      hide BytesOfWord, Store32B;
      for i := 0 to 8
        invariant forall j :: 0 <= j < i ==> out[4 * j..4 * j + 4] == BytesOfWord(state[j])
      {
        Store32BIsBytesOfWord(state[i]);
        var w := Store32B(state[i]);
        out[4 * i], out[4 * i + 1], out[4 * i + 2], out[4 * i + 3] := w[0], w[1], w[2], w[3];
        assert out[4 * i..4 * i + 4] == w;
      }
      assert out[..] == out[4 * 0..4 * 0 + 4] + out[4 * 1..4 * 1 + 4] + out[4 * 2..4 * 2 + 4] + out[4 * 3..4 * 3 + 4]
                      + out[4 * 4..4 * 4 + 4] + out[4 * 5..4 * 5 + 4] + out[4 * 6..4 * 6 + 4] + out[4 * 7..4 * 7 + 4];
    }

    /** `sha256_done` up to the final compression. */
    method PadAndCompress()
      requires Valid() && curlen < 64
      modifies this, state, buf
      ensures Valid() && VarsIn(state) == FinalVars(old(Abs()))
    {
      hide Compress, VarsIn, FinalVars, BigEndian, Zeros;
      ghost var c := Abs();
      length := (length + 8 * curlen) % TWO64;
      buf[curlen] := 0x80;
      curlen := curlen + 1;
      ghost var head := c.tail + [0x80];
      assert buf[..curlen] == head;
      if curlen > 56 {
        FillZeros(64);
        assert buf[..] == buf[..64] == head + Zeros(63 - |c.tail|);
        CompressWords(state, buf[..]);
        curlen := 0;
        FillZeros(56);
        assert buf[..56] == Zeros(56);
        StoreLength();
        CompressWords(state, buf[..]);
        TwoPaddingBlocks(c);
      } else {
        FillZeros(56);
        assert buf[..56] == head + Zeros(55 - |c.tail|);
        StoreLength();
        CompressWords(state, buf[..]);
        OnePaddingBlock(c);
      }
    }

    /** `sha256_done` */
    method Done(out: array<Byte>) returns (r: int)
      requires Valid() && out.Length == 32 && out != buf
      modifies this, state, buf, out
      ensures Valid()
      ensures old(curlen) >= 64 ==> r == -1 && out[..] == old(out[..])
      ensures old(curlen) < 64 ==> r == 0 && out[..] == Finish(old(Abs()))
    {
      hide VarsIn, FinalVars, BytesOfVars;
      if curlen >= buf.Length {
        return -1;
      }
      PadAndCompress();
      StoreDigest(out);
      return 0;
    }
  }

  /** The bytes `STORE64B` writes; a shift right is a division by a power of two. */
  function Store64B(x: nat): (s: seq<Byte>)
    ensures |s| == 8
  {
    [LowByte(x / 0x100_0000_0000_0000), LowByte(x / 0x1_0000_0000_0000),
     LowByte(x / 0x100_0000_0000), LowByte(x / 0x1_0000_0000),
     LowByte(x / 0x100_0000), LowByte(x / 0x1_0000), LowByte(x / 0x100), LowByte(x)]
  }

  lemma RepeatedShifts(x: nat)
    ensures x / 0x100 / 256 == x / 0x1_0000
    ensures x / 0x1_0000 / 256 == x / 0x100_0000
    ensures x / 0x100_0000 / 256 == x / 0x1_0000_0000
    ensures x / 0x1_0000_0000 / 256 == x / 0x100_0000_0000
    ensures x / 0x100_0000_0000 / 256 == x / 0x1_0000_0000_0000
    ensures x / 0x1_0000_0000_0000 / 256 == x / 0x100_0000_0000_0000
  {
  }

  lemma BigEndianStep(x: nat, y: nat, n: nat)
    requires y == x / 256
    ensures BigEndian(x, n + 1) == BigEndian(y, n) + [LowByte(x)]
  {
  }

  lemma Store64BIsBigEndian(x: nat)
    ensures Store64B(x) == BigEndian(x, 8)
  {
    hide BigEndian, LowByte;
    RepeatedShifts(x);
    BigEndianStep(x, x / 0x100, 7);
    BigEndianStep(x / 0x100, x / 0x1_0000, 6);
    BigEndianStep(x / 0x1_0000, x / 0x100_0000, 5);
    BigEndianStep(x / 0x100_0000, x / 0x1_0000_0000, 4);
    BigEndianStep(x / 0x1_0000_0000, x / 0x100_0000_0000, 3);
    BigEndianStep(x / 0x100_0000_0000, x / 0x1_0000_0000_0000, 2);
    BigEndianStep(x / 0x1_0000_0000_0000, x / 0x100_0000_0000_0000, 1);
    BigEndianStep(x / 0x100_0000_0000_0000, x / 0x100_0000_0000_0000 / 256, 0);
    assert BigEndian(x / 0x100_0000_0000_0000 / 256, 0) == [];
  }

  /** A tail of at most 55 bytes is padded within its block. */
  lemma OnePaddingBlock(c: Context)
    requires |c.tail| <= 55
    ensures FinalVars(c) == Compress(c.h, c.tail + [0x80] + Zeros(55 - |c.tail|) + BigEndian((c.length + 8 * |c.tail|) % TWO64, 8))
  {
    hide Compress, BigEndian;
    var p := PaddedTail(c);
    assert p == c.tail + [0x80] + Zeros(55 - |c.tail|) + BigEndian((c.length + 8 * |c.tail|) % TWO64, 8);
    assert p[64 * 0..64 * 1] == p;
    assert CompressBlocks(c.h, p, 0) == c.h;
  }

  /** A longer tail leaves no room for the length field, and takes a second block. */
  lemma TwoPaddingBlocks(c: Context)
    requires 56 <= |c.tail| < 64
    ensures FinalVars(c)
         == Compress(Compress(c.h, c.tail + [0x80] + Zeros(63 - |c.tail|)),
                     Zeros(56) + BigEndian((c.length + 8 * |c.tail|) % TWO64, 8))
  {
    hide Compress, BigEndian;
    var p := PaddedTail(c);
    var p0 := c.tail + [0x80] + Zeros(63 - |c.tail|);
    var p1 := Zeros(56) + BigEndian((c.length + 8 * |c.tail|) % TWO64, 8);
    assert p == p0 + p1;
    assert p[64 * 0..64 * 1] == p0 && p[64 * 1..64 * 2] == p1;
    assert CompressBlocks(c.h, p, 0) == c.h;
    assert CompressBlocks(c.h, p, 1) == Compress(c.h, p0);
  }

  /** `sha256` */
  method Sha256Hash(addr: seq<Byte>, res: array<Byte>) returns (r: int)
    requires res.Length == 32
    modifies res
    ensures r == 0
    ensures res[..] == Finish(Absorb(INITIAL, addr))
    ensures 8 * |addr| < TWO64 ==> res[..] == Digest(addr)
  {
    hide Finish, Absorb, Digest;
    var ctx := new Sha256State();
    r := ctx.Process(addr);
    if r != 0 {
      return -1;
    }
    r := ctx.Done(res);
    if r != 0 {
      return -1;
    }
    if 8 * |addr| < TWO64 {
      StreamingDigest(addr);
    }
    return 0;
  }

  lemma AbsorbStep(c: Context, input: seq<Byte>, i: nat, n: nat)
    requires i + n <= |input|
    ensures Absorb(c, input[..i + n]) == Absorb(Absorb(c, input[..i]), input[i..i + n])
  {
    hide Absorb;
    AbsorbConcat(c, input[..i], input[i..i + n]);
    assert input[..i] + input[i..i + n] == input[..i + n];
  }
}
