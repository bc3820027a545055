/**
 What the streaming interface of wifi/iw/sha256.c computes, as functions on an abstract context, and
 the proof that it is the digest of FIPS 180-4 however the input is cut into calls.
 */
module Sha256Streaming {
  import opened Bytes
  import opened Fips180

  const TWO64 := 0x1_0000_0000_0000_0000

  /** What the C structure stands for: `tail` is `buf[..curlen]`, `length` counts bits modulo 2^64. */
  datatype Context = Context(h: Vars, length: nat, tail: seq<Byte>)

  const INITIAL := Context(H0, 0, [])

  /** The context after feeding `input`, however it is cut into calls. */
  function Absorb(c: Context, input: seq<Byte>): Context {
    var data := c.tail + input;
    var n := |data| / 64;
    Context(CompressBlocks(c.h, data, n), (c.length + 512 * n) % TWO64, data[64 * n..])
  }

  /** The tail with its padding, in a message whose bit length is kept modulo 2^64. */
  function PaddedTail(c: Context): seq<Byte> {
    c.tail + Padding(|c.tail|, (c.length + 8 * |c.tail|) % TWO64)
  }

  function FinalVars(c: Context): Vars {
    PaddingFillsBlocks(|c.tail|);
    var p := PaddedTail(c);
    CompressBlocks(c.h, p, |p| / 64)
  }

  function Finish(c: Context): seq<Byte> {
    BytesOfVars(FinalVars(c))
  }

  // ---------------------------------------------------------------- properties of the functions

  /** Blocks beyond the first `n` do not matter for the first `n`. */
  lemma {:induction false} CompressPrefix(h: Vars, data: seq<Byte>, more: seq<Byte>, n: nat)
    requires 64 * n <= |data|
    ensures CompressBlocks(h, data + more, n) == CompressBlocks(h, data, n)
  {
    hide Compress;
    if n > 0 {
      CompressPrefix(h, data, more, n - 1);
      assert (data + more)[64 * (n - 1)..64 * n] == data[64 * (n - 1)..64 * n];
    }
  }

  lemma {:induction false} CompressSplit(h: Vars, data: seq<Byte>, n: nat, m: nat)
    requires 64 * (n + m) <= |data|
    ensures CompressBlocks(h, data, n + m) == CompressBlocks(CompressBlocks(h, data, n), data[64 * n..], m)
  {
    hide Compress;
    if m > 0 {
      CompressSplit(h, data, n, m - 1);
      assert data[64 * n..][64 * (m - 1)..64 * m] == data[64 * (n + m - 1)..64 * (n + m)];
    }
  }

  lemma LengthAdds(x: nat, y: nat)
    ensures (x + y) % TWO64 == (x % TWO64 + y) % TWO64
  {
  }

  /** Feeding two pieces is feeding their concatenation. */
  lemma AbsorbConcat(c: Context, a: seq<Byte>, b: seq<Byte>)
    ensures Absorb(Absorb(c, a), b) == Absorb(c, a + b)
  {
    hide CompressBlocks;
    var first := c.tail + a;
    var n := |first| / 64;
    var rest := first[64 * n..] + b;
    var m := |rest| / 64;
    var data := c.tail + (a + b);
    assert data == first + b;
    assert data[64 * n..] == rest;
    assert |data| / 64 == n + m;
    assert rest[64 * m..] == data[64 * (n + m)..];
    CompressPrefix(c.h, first, b, n);
    CompressSplit(c.h, data, n, m);
    LengthAdds(c.length + 512 * n, 512 * m);
  }

  function Concat(chunks: seq<seq<Byte>>): seq<Byte> {
    if chunks == [] then [] else Concat(chunks[..|chunks| - 1]) + chunks[|chunks| - 1]
  }

  /** The context after a run of calls, one per chunk. */
  function AbsorbAll(c: Context, chunks: seq<seq<Byte>>): Context {
    if chunks == [] then c
    else Absorb(AbsorbAll(c, chunks[..|chunks| - 1]), chunks[|chunks| - 1])
  }

  /** Any run of calls from the initial context depends only on the concatenated input. */
  lemma {:induction false} SplitIndependence(chunks: seq<seq<Byte>>)
    ensures AbsorbAll(INITIAL, chunks) == Absorb(INITIAL, Concat(chunks))
  {
    hide Absorb;
    if chunks == [] {
      AbsorbNothing(H0);
    } else {
      SplitIndependence(chunks[..|chunks| - 1]);
      AbsorbConcat(INITIAL, Concat(chunks[..|chunks| - 1]), chunks[|chunks| - 1]);
    }
  }

  lemma AbsorbNothing(h: Vars)
    ensures Absorb(Context(h, 0, []), []) == Context(h, 0, [])
  {
  }

  /** A piece that does not complete a block is only buffered. */
  lemma AbsorbShort(c: Context, piece: seq<Byte>)
    requires |c.tail| + |piece| < 64 && c.length < TWO64
    ensures Absorb(c, piece) == Context(c.h, c.length, c.tail + piece)
  {
    hide Compress;
    var data := c.tail + piece;
    assert |data| / 64 == 0 && data[64 * 0..] == data;
  }

  /** A piece that completes exactly one block is compressed at once. */
  lemma AbsorbBlock(c: Context, piece: seq<Byte>)
    requires |c.tail| + |piece| == 64
    ensures Absorb(c, piece) == Context(Compress(c.h, c.tail + piece), (c.length + 512) % TWO64, [])
  {
    hide Compress;
    var data := c.tail + piece;
    assert data[64 * 0..64 * 1] == data;
    assert CompressBlocks(c.h, data, 0) == c.h;
  }

  /**
   Finishing a context that has absorbed `m` compresses `m` with the standard's padding, up to the
   length field, which holds the bit length modulo 2^64.
   */
  lemma FinishCompressesPaddedMessage(m: seq<Byte>)
    ensures var p := m + Padding(|m|, 8 * |m| % TWO64);
            Finish(Absorb(INITIAL, m)) == BytesOfVars(CompressBlocks(H0, p, |p| / 64))
  {
    hide CompressBlocks, BytesOfVars, Padding, ZeroBytes;
    var c := Absorb(INITIAL, m);
    var n := |m| / 64;
    assert [] + m == m;
    TailPadding(m);
    var rest := Padding(|m|, 8 * |m| % TWO64);
    var p := m + rest;
    assert PaddedTail(c) == p[64 * n..];
    PaddingFillsBlocks(|m|);
    CompressPrefix(H0, m, rest, n);
    CompressSplit(H0, p, n, |p| / 64 - n);
  }

  /** The tail of `m` needs the padding of `m` itself, and the bit count is complete. */
  lemma TailPadding(m: seq<Byte>)
    ensures var n := |m| / 64;
            Padding(|m| - 64 * n, (512 * n % TWO64 + 8 * (|m| - 64 * n)) % TWO64) == Padding(|m|, 8 * |m| % TWO64)
  {
    var n := |m| / 64;
    assert |m| - 64 * n == |m| % 64;
    LengthAdds(512 * n, 8 * (|m| - 64 * n));
    assert 512 * n + 8 * (|m| - 64 * n) == 8 * |m|;
    assert ZeroBytes(|m| % 64) == ZeroBytes(|m|);
  }

  /** The digest is that of FIPS 180-4 on the messages the standard covers: below 2^64 bits. */
  lemma StreamingDigest(m: seq<Byte>)
    requires 8 * |m| < TWO64
    ensures Finish(Absorb(INITIAL, m)) == Digest(m)
  {
    hide CompressBlocks, BytesOfVars, Padding, Finish, Absorb;
    FinishCompressesPaddedMessage(m);
  }
}
