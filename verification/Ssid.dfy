/** The printing of network names: `print_ssid_escaped` (wifi/iw/util.c). */
module Ssid {
  import opened Bytes
  import opened HexText
  import opened Options

  /** `isprint` in the C locale */
  predicate IsPrint(b: byte) {
    32 <= b < 127
  }

  const SPACE: byte := 32
  const BACKSLASH: byte := 92

  /** What is printed for position `i`. */
  function Piece(data: seq<byte>, i: nat): string
    requires i < |data|
  {
    if IsPrint(data[i]) && data[i] != SPACE && data[i] != BACKSLASH then [data[i] as char]
    else if data[i] == SPACE && i != 0 && i != |data| - 1 then " "
    else "\\x" + Hex2(data[i])
  }

  function EscapedFrom(data: seq<byte>, i: nat): string
    requires i <= |data|
    decreases |data| - i
  {
    if i == |data| then "" else Piece(data, i) + EscapedFrom(data, i + 1)
  }

  function Escaped(data: seq<byte>): string {
    EscapedFrom(data, 0)
  }

  /** Visible characters other than the backslash stand for themselves, and so does a space that is neither first nor last. */
  lemma WhatIsPrinted(data: seq<byte>, i: nat)
    requires i < |data|
    ensures 33 <= data[i] <= 126 && data[i] != 92 ==> Piece(data, i) == [data[i] as char]
    ensures data[i] == 32 ==> Piece(data, i) == if 0 < i < |data| - 1 then " " else "\\x20"
    ensures data[i] == 92 ==> Piece(data, i) == "\\x5c"
    ensures data[i] < 32 || data[i] >= 127 ==> |Piece(data, i)| == 4 && Piece(data, i)[..2] == "\\x"
  {
    assert Digit(2) == '2' && Digit(0) == '0' && Digit(5) == '5' && Digit(12) == 'c';
  }

  /** `print_ssid_escaped`; the length is passed as a `uint8_t`. */
  method PrintSsidEscaped(data: seq<byte>) returns (out: string)
    requires |data| < 256
    ensures out == Escaped(data)
  {
    hide Hex2, EscapedFrom;
    out := "";
    var i := 0;
    OneMorePiece(data, 0, "");
    while i < |data|
      invariant 0 <= i <= |data| && Escaped(data) == out + EscapedFrom(data, i)
    {
      OneMorePiece(data, i, out);
      if IsPrint(data[i]) && data[i] != SPACE && data[i] != BACKSLASH {
        out := out + [data[i] as char];
      } else if data[i] == SPACE && i != 0 && i != |data| - 1 {
        out := out + " ";
      } else {
        out := out + ("\\x" + Hex2(data[i]));
      }
      i := i + 1;
    }
    OneMorePiece(data, i, out);
  }

  lemma OneMorePiece(data: seq<byte>, i: nat, out: string)
    requires i <= |data|
    ensures out == "" ==> out + EscapedFrom(data, i) == EscapedFrom(data, i)
    ensures if i == |data| then out + EscapedFrom(data, i) == out
            else out + EscapedFrom(data, i) == (out + Piece(data, i)) + EscapedFrom(data, i + 1)
  {
    hide Piece;
    if i < |data| {
      assert out + (Piece(data, i) + EscapedFrom(data, i + 1)) == (out + Piece(data, i)) + EscapedFrom(data, i + 1);
    }
  }

  /** A reader of escaped text: `\xHH` stands for a byte, any other character for itself. */
  function Decode(t: string): Option<seq<byte>> {
    if t == "" then Some([])
    else if t[0] != '\\' then
      match Decode(t[1..])
      case None => None
      case Some(rest) => if t[0] as int < 256 then Some([t[0] as byte] + rest) else None
    else if |t| < 4 || t[1] != 'x' || !IsHex(t[2]) || !IsHex(t[3]) then None
    else
      match Decode(t[4..])
      case None => None
      case Some(rest) => Some([(16 * DigitValue(t[2]) + DigitValue(t[3])) as byte] + rest)
  }

  lemma {:induction false} DecodeFrom(data: seq<byte>, i: nat)
    requires i <= |data|
    ensures Decode(EscapedFrom(data, i)) == Some(data[i..])
    decreases |data| - i
  {
    if i < |data| {
      DecodeFrom(data, i + 1);
      var rest := EscapedFrom(data, i + 1);
      DecodePiece(data, i, rest, data[i + 1..]);
      assert [data[i]] + data[i + 1..] == data[i..];
    } else {
      assert data[i..] == [];
    }
  }

  lemma DecodePiece(data: seq<byte>, i: nat, rest: string, bytes: seq<byte>)
    requires i < |data| && Decode(rest) == Some(bytes)
    ensures Decode(Piece(data, i) + rest) == Some([data[i]] + bytes)
  {
    var p := Piece(data, i);
    var t := p + rest;
    assert t[|p|..] == rest;
    assert t[0] == p[0];
    if (IsPrint(data[i]) && data[i] != SPACE && data[i] != BACKSLASH) || (data[i] == SPACE && i != 0 && i != |data| - 1) {
      assert |p| == 1 && t[1..] == rest;
      assert t[0] != '\\' && t[0] as int == data[i] as int;
    } else {
      var h := Hex2(data[i]);
      assert p == "\\x" + h;
      assert t[1] == 'x' && t[2] == h[0] && t[3] == h[1] && t[4..] == rest;
      assert (16 * DigitValue(t[2]) + DigitValue(t[3])) as byte == data[i];
    }
  }

  /** The reader recovers every name from what is printed for it. */
  lemma EscapedRoundTrip(data: seq<byte>)
    ensures Decode(Escaped(data)) == Some(data)
  {
    DecodeFrom(data, 0);
    assert data[0..] == data;
  }

  /** Different names print differently. */
  lemma EscapedIsInjective(a: seq<byte>, b: seq<byte>)
    ensures Escaped(a) == Escaped(b) <==> a == b
  {
    EscapedRoundTrip(a);
    EscapedRoundTrip(b);
  }

  /** Only printable characters come out, and the text neither begins nor ends with a space. */
  lemma {:induction false} EscapedIsVisible(data: seq<byte>, i: nat)
    requires i <= |data|
    ensures Visible(EscapedFrom(data, i))
    ensures i < |data| ==> EscapedFrom(data, i) != "" && EscapedFrom(data, i)[|EscapedFrom(data, i)| - 1] != ' '
    ensures i == 0 && |data| > 0 ==> EscapedFrom(data, i)[0] != ' '
    decreases |data| - i
  {
    if i < |data| {
      EscapedIsVisible(data, i + 1);
      PieceIsVisible(data, i);
      VisiblePair(Piece(data, i), EscapedFrom(data, i + 1));
    }
  }

  predicate Visible(t: string) {
    forall k :: 0 <= k < |t| ==> ' ' <= t[k] <= '~'
  }

  lemma PieceIsVisible(data: seq<byte>, i: nat)
    requires i < |data|
    ensures var p := Piece(data, i);
            p != "" && Visible(p) && (i == 0 ==> p[0] != ' ') && (i == |data| - 1 ==> p[|p| - 1] != ' ')
  {
  }

  lemma VisiblePair(a: string, b: string)
    requires Visible(a) && Visible(b) && a != ""
    ensures Visible(a + b) && (a + b)[0] == a[0]
    ensures (a + b)[|a + b| - 1] == if b == "" then a[|a| - 1] else b[|b| - 1]
  {
  }
}
