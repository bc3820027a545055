/**
 Hexadecimal text (wifi/iw/util.c): digits, colon-separated tokens, `hex2bin`, and MAC addresses.
 A C string is a sequence of characters none of which is NUL.
 */
module HexText {
  import opened Bytes
  import opened Options

  const ETH_ALEN := 6

  // ---------------------------------------------------------------- digits

  /** `isxdigit` in the C locale */
  predicate IsHex(c: char) {
    '0' <= c <= '9' || 'a' <= c <= 'f' || 'A' <= c <= 'F'
  }

  function DigitValue(c: char): (r: nat)
    requires IsHex(c)
    ensures r < 16
  {
    if c <= '9' then c as int - '0' as int
    else if c <= 'F' then c as int - 'A' as int + 10
    else c as int - 'a' as int + 10
  }

  function Digit(n: nat): (c: char)
    requires n < 16
    ensures IsHex(c) && DigitValue(c) == n && c != ':'
  {
    if n < 10 then ('0' as int + n) as char else ('a' as int + n - 10) as char
  }

  const DIGITS := "0123456789abcdef"
  const CAPITALS := "ABCDEF"

  /** The digits have the values of their places, capitals too, and small letters are printed. */
  lemma DigitValues(n: nat)
    requires n < 16
    ensures IsHex(DIGITS[n]) && DigitValue(DIGITS[n]) == n && Digit(n) == DIGITS[n]
    ensures n >= 10 ==> IsHex(CAPITALS[n - 10]) && DigitValue(CAPITALS[n - 10]) == n
  {
  }

  /** There are no other digits. */
  lemma WhatIsADigit(c: char)
    ensures IsHex(c) <==> c in DIGITS || c in CAPITALS
  {
    if IsHex(c) {
      var n := DigitValue(c);
      assert c == DIGITS[n] || (n >= 10 && c == CAPITALS[n - 10]);
    }
  }

  /** What "%.2x" and "%02x" print for a byte. */
  function Hex2(b: byte): (s: string)
    ensures |s| == 2 && IsHex(s[0]) && IsHex(s[1]) && ':' !in s
    ensures DigitValue(s[0]) * 16 + DigitValue(s[1]) == b as int
  {
    [Digit(b as nat / 16), Digit(b as nat % 16)]
  }

  predicate AllHex(s: string) {
    forall i :: 0 <= i < |s| ==> IsHex(s[i])
  }

  // ---------------------------------------------------------------- hex2bin

  function HexOf(bytes: seq<byte>): string {
    if bytes == [] then [] else Hex2(bytes[0]) + HexOf(bytes[1..])
  }

  /** The bytes a digit string stands for, if it stands for bytes. */
  function BytesOf(hex: string): Option<seq<byte>> {
    if hex == [] then Some([])
    else if |hex| == 1 || !IsHex(hex[0]) || !IsHex(hex[1]) then None
    else
      match BytesOf(hex[2..])
      case None => None
      case Some(rest) => Some([(16 * DigitValue(hex[0]) + DigitValue(hex[1])) as byte] + rest)
  }

  /** Exactly the strings of an even number of digits are accepted, and half as many bytes come out. */
  lemma {:induction false} AcceptedHex(hex: string)
    ensures BytesOf(hex).Some? <==> |hex| % 2 == 0 && AllHex(hex)
    ensures BytesOf(hex).Some? ==> 2 * |BytesOf(hex).value| == |hex|
  {
    if |hex| > 1 {
      AcceptedHex(hex[2..]);
      assert |hex| % 2 == |hex[2..]| % 2;
      assert AllHex(hex) <==> IsHex(hex[0]) && IsHex(hex[1]) && AllHex(hex[2..]) by {
        assert forall i :: 2 <= i < |hex| ==> hex[i] == hex[2..][i - 2];
      }
      if IsHex(hex[0]) && IsHex(hex[1]) {
        assert BytesOf(hex).Some? <==> BytesOf(hex[2..]).Some?;
      }
    }
  }

  lemma {:induction false} BytesOfHexOf(bytes: seq<byte>)
    ensures BytesOf(HexOf(bytes)) == Some(bytes)
  {
    if bytes != [] {
      var hex := HexOf(bytes);
      assert hex[0] == Hex2(bytes[0])[0] && hex[1] == Hex2(bytes[0])[1] && hex[2..] == HexOf(bytes[1..]);
      BytesOfHexOf(bytes[1..]);
      assert [bytes[0]] + bytes[1..] == bytes;
      assert BytesOf(hex) == Some([bytes[0]] + bytes[1..]);
    }
  }

  /** What has been read of the digits, and what is ahead, make up the whole. */
  ghost predicate ReadSoFar(hex: string, p: nat, done: seq<byte>)
    requires p <= |hex|
  {
    && (BytesOf(hex).Some? <==> BytesOf(hex[p..]).Some?)
    && (BytesOf(hex).Some? ==> BytesOf(hex).value == done + BytesOf(hex[p..]).value)
  }

  lemma NothingRead(hex: string)
    ensures ReadSoFar(hex, 0, [])
  {
    assert hex[0..] == hex;
  }

  lemma AllRead(hex: string, done: seq<byte>)
    requires ReadSoFar(hex, |hex|, done)
    ensures BytesOf(hex) == Some(done)
  {
    assert hex[|hex|..] == [] && done + [] == done;
  }

  lemma ReadTwoMore(hex: string, p: nat, done: seq<byte>)
    requires p < |hex| && ReadSoFar(hex, p, done)
    ensures p + 1 == |hex| || !IsHex(hex[p]) || !IsHex(hex[p + 1]) ==> BytesOf(hex).None?
    ensures p + 1 < |hex| && IsHex(hex[p]) && IsHex(hex[p + 1]) ==>
              ReadSoFar(hex, p + 2, done + [(16 * DigitValue(hex[p]) + DigitValue(hex[p + 1])) as byte])
  {
    hide DigitValue, IsHex;
    var ahead := hex[p..];
    if p + 1 < |hex| {
      assert ahead[0] == hex[p] && ahead[1] == hex[p + 1] && ahead[2..] == hex[p + 2..];
      if BytesOf(ahead).Some? {
        var d, rest := BytesOf(ahead).value[0], BytesOf(hex[p + 2..]).value;
        assert done + ([d] + rest) == (done + [d]) + rest;
      }
    }
  }

  /** The bytes read stand at the beginning of the buffer, and the rest of it is as it was. */
  lemma OneMoreByte(before: seq<byte>, done: seq<byte>, d: byte)
    requires |done| < |before|
    ensures (done + before[|done|..])[|done| := d] == (done + [d]) + before[|done| + 1..]
  {
  }

  /** `hex2bin`; the caller provides room for half as many bytes as there are characters. */
  method Hex2Bin(hex: string, buf: array<byte>) returns (ok: bool)
    requires |hex| <= 2 * buf.Length + 1
    modifies buf
    ensures ok <==> BytesOf(hex).Some?
    ensures ok ==> |hex| == 2 * |BytesOf(hex).value| <= 2 * buf.Length
    ensures ok ==> buf[..] == BytesOf(hex).value + old(buf[..])[|hex| / 2..]
  {
    var pos := 0;
    ghost var done: seq<byte> := [];
    AcceptedHex(hex);
    NothingRead(hex);
    hide BytesOf, ReadSoFar, AllHex, DigitValue;
    while 2 * pos < |hex|
      invariant 0 <= 2 * pos <= |hex| && |done| == pos && ReadSoFar(hex, 2 * pos, done)
      invariant buf[..] == done + old(buf[..])[pos..]
    {
      ReadTwoMore(hex, 2 * pos, done);
      if !IsHex(hex[2 * pos]) {
        return false;
      }
      if 2 * pos + 1 == |hex| || !IsHex(hex[2 * pos + 1]) {
        return false;
      }
      var d := (16 * DigitValue(hex[2 * pos]) + DigitValue(hex[2 * pos + 1])) as byte;
      OneMoreByte(old(buf[..]), done, d);
      ghost var now := buf[..];
      buf[pos] := d;
      assert buf[..] == now[pos := d];
      done := done + [d];
      pos := pos + 1;
    }
    AllRead(hex, done);
    return true;
  }

  // ---------------------------------------------------------------- tokens

  /** The position of the first colon, or the length: `strchr`. */
  function Colon(s: string): (r: nat)
    ensures r <= |s| && ':' !in s[..r] && (r < |s| ==> s[r] == ':')
  {
    if s == [] || s[0] == ':' then 0
    else
      var r := Colon(s[1..]);
      assert s[..r + 1] == [s[0]] + s[1..][..r];
      r + 1
  }

  /** The pieces between colons; there is always at least one. */
  function Tokens(s: string): (t: seq<string>)
    ensures |t| > 0
    decreases |s|
  {
    var k := Colon(s);
    if k == |s| then [s] else [s[..k]] + Tokens(s[k + 1..])
  }

  lemma FirstToken(s: string)
    ensures var k := Colon(s);
            && Tokens(s)[0] == s[..k]
            && (if k == |s| then |Tokens(s)| == 1 else Tokens(s)[1..] == Tokens(s[k + 1..]))
  {
  }

  function Join(t: seq<string>): string
    requires |t| > 0
  {
    if |t| == 1 then t[0] else t[0] + ":" + Join(t[1..])
  }

  lemma ColonAfter(a: string, b: string)
    requires ':' !in a
    ensures Colon(a + ":" + b) == |a| && Colon(a) == |a|
    ensures (a + ":" + b)[..|a|] == a && (a + ":" + b)[|a| + 1..] == b
  {
    var s := a + ":" + b;
    var k := Colon(s);
    assert s[|a|] == ':' && forall i :: 0 <= i < |a| ==> s[i] == a[i];
    assert k <= |a| by {
      assert forall i :: 0 <= i < k ==> s[..k][i] == s[i];
    }
  }

  /** Joining pieces without colons and cutting the result gives the pieces back. */
  lemma {:induction false} TokensOfJoin(t: seq<string>)
    requires |t| > 0 && forall i :: 0 <= i < |t| ==> ':' !in t[i]
    ensures Tokens(Join(t)) == t
  {
    if |t| == 1 {
      ColonAfter(t[0], "");
    } else {
      ColonAfter(t[0], Join(t[1..]));
      TokensOfJoin(t[1..]);
    }
  }

  lemma {:induction false} JoinOfTokens(s: string)
    ensures Join(Tokens(s)) == s
    decreases |s|
  {
    hide Tokens;
    var k := Colon(s);
    FirstToken(s);
    if k < |s| {
      var rest := Tokens(s[k + 1..]);
      assert Tokens(s) == [s[..k]] + rest;
      JoinOfTokens(s[k + 1..]);
      assert ([s[..k]] + rest)[1..] == rest;
      assert Join([s[..k]] + rest) == s[..k] + ":" + s[k + 1..] == s;
    }
  }

  /** Without empty tokens there are at most half as many tokens as characters, rounded up. */
  lemma {:induction false} FewTokens(s: string)
    requires forall i :: 0 <= i < |Tokens(s)| ==> Tokens(s)[i] != []
    ensures 2 * |Tokens(s)| <= |s| + 1
    decreases |s|
  {
    var k := Colon(s);
    assert Tokens(s)[0] != [];
    if k < |s| {
      assert Tokens(s)[1..] == Tokens(s[k + 1..]);
      FewTokens(s[k + 1..]);
    }
  }

  // ---------------------------------------------------------------- MAC addresses

  function HexTokens(bytes: seq<byte>): (t: seq<string>)
    ensures |t| == |bytes| && forall i :: 0 <= i < |t| ==> t[i] == Hex2(bytes[i])
  {
    seq(|bytes|, i requires 0 <= i < |bytes| => Hex2(bytes[i]))
  }

  /** `mac_addr_n2a` */
  method MacAddrN2A(arg: seq<byte>) returns (text: string)
    requires |arg| == ETH_ALEN
    ensures text == Join(HexTokens(arg))
  {
    text := [];
    var i := 0;
    while i < ETH_ALEN
      invariant 0 <= i <= ETH_ALEN
      invariant if i == 0 then text == [] else text == Join(HexTokens(arg[..i]))
    {
      if i == 0 {
        text := text + Hex2(arg[i]);
      } else {
        JoinOneMore(HexTokens(arg[..i]), Hex2(arg[i]));
        text := text + ":" + Hex2(arg[i]);
      }
      assert HexTokens(arg[..i + 1]) == HexTokens(arg[..i]) + [Hex2(arg[i])];
      i := i + 1;
    }
    assert arg[..i] == arg;
  }

  lemma {:induction false} JoinOneMore(t: seq<string>, x: string)
    requires |t| > 0
    ensures Join(t + [x]) == Join(t) + ":" + x
  {
    if |t| > 1 {
      JoinOneMore(t[1..], x);
      assert (t + [x])[1..] == t[1..] + [x];
      assert t[0] + ":" + (Join(t[1..]) + ":" + x) == (t[0] + ":" + Join(t[1..])) + ":" + x;
    } else {
      assert (t + [x])[1..] == [x];
    }
  }

  /** The number `sscanf` reads from a token fits a byte. */
  predicate Fits(n: Option<int>) {
    n.Some? && 0 <= n.value <= 255
  }

  /** What `mac_addr_a2n` makes of a text. */
  function MacOf(arg: string, scan: string -> Option<int>): Option<seq<byte>> {
    var t := Tokens(arg);
    if |t| >= ETH_ALEN && forall i :: 0 <= i < ETH_ALEN ==> Fits(scan(t[i]))
    then Some(seq(ETH_ALEN, i requires 0 <= i < ETH_ALEN => scan(t[i]).value as byte))
    else None
  }

  lemma MacOfIs(arg: string, scan: string -> Option<int>, mac: seq<byte>)
    requires |mac| == ETH_ALEN <= |Tokens(arg)|
    requires forall i :: 0 <= i < ETH_ALEN ==> scan(Tokens(arg)[i]) == Some(mac[i] as int)
    ensures MacOf(arg, scan) == Some(mac)
  {
    hide Tokens;
    var t := Tokens(arg);
    assert forall i :: 0 <= i < ETH_ALEN ==> Fits(scan(t[i]));
    assert MacOf(arg, scan).value == mac;
  }

  /**
   `mac_addr_a2n`, where `scan` is what `sscanf` with "%x" reads from a token.  What follows a sixth
   token is ignored.
   */
  method MacAddrA2N(arg: string, scan: string -> Option<int>) returns (r: int, mac: seq<byte>)
    ensures r == 0 || r == -1
    ensures var t := Tokens(arg);
            r == 0 <==> |t| >= 6 && forall i :: 0 <= i < 6 ==> Fits(scan(t[i]))
    ensures r == 0 <==> MacOf(arg, scan).Some?
    ensures r == 0 ==> MacOf(arg, scan) == Some(mac)
  {
    hide Tokens;
    ghost var t := Tokens(arg);
    var rest := arg;
    assert t[0..] == t;
    var i := 0;
    mac := [];
    while i < ETH_ALEN
      invariant 0 <= i <= ETH_ALEN && |mac| == i <= |t|
      invariant i < ETH_ALEN ==> i < |t| && t[i..] == Tokens(rest)
      invariant forall j :: 0 <= j < i ==> scan(t[j]) == Some(mac[j] as int)
    {
      var cp := Colon(rest);
      FirstToken(rest);
      var token := rest[..cp];
      assert token == t[i] by {
        assert t[i..][0] == t[i];
      }
      var temp := scan(token);
      if temp.None? {
        return -1, mac;
      }
      if temp.value < 0 || temp.value > 255 {
        return -1, mac;
      }
      mac := mac + [temp.value as byte];
      if cp == |rest| {
        assert |t[i..]| == 1;
        break;
      }
      assert t[i..][1..] == t[i + 1..];
      rest := rest[cp + 1..];
      i := i + 1;
    }
    if i < ETH_ALEN - 1 {
      return -1, mac;
    }
    MacOfIs(arg, scan, mac);
    return 0, mac;
  }

  ghost predicate ReadsTwoDigits(scan: string -> Option<int>) {
    forall b: byte {:trigger Hex2(b)} :: scan(Hex2(b)) == Some(b as int)
  }

  /** Printing an address and reading it back gives the address. */
  lemma MacRoundTrip(mac: seq<byte>, scan: string -> Option<int>)
    requires |mac| == ETH_ALEN && ReadsTwoDigits(scan)
    ensures MacOf(Join(HexTokens(mac)), scan) == Some(mac) && |Tokens(Join(HexTokens(mac)))| == ETH_ALEN
  {
    TokensOfJoin(HexTokens(mac));
    MacOfIs(Join(HexTokens(mac)), scan, mac);
  }

  // ---------------------------------------------------------------- addresses with too many parts

  lemma {:induction false} TokensAppend(a: string, b: string)
    ensures Tokens(a + ":" + b) == Tokens(a) + Tokens(b)
    decreases |a|
  {
    hide Tokens;
    var k := Colon(a);
    FirstToken(a);
    ColonAfter(a[..k], if k < |a| then a[k + 1..] + ":" + b else b);
    FirstToken(a + ":" + b);
    if k < |a| {
      var rest := a[k + 1..];
      assert a + ":" + b == a[..k] + ":" + (rest + ":" + b);
      TokensAppend(rest, b);
      HeadAndTail(Tokens(a + ":" + b), Tokens(a), Tokens(b));
    } else {
      assert a[..k] == a && a + ":" + b == a[..k] + ":" + b;
      assert Tokens(a) == [Tokens(a)[0]];
      assert Tokens(a + ":" + b) == [Tokens(a + ":" + b)[0]] + Tokens(a + ":" + b)[1..];
    }
  }

  lemma HeadAndTail(t: seq<string>, a: seq<string>, b: seq<string>)
    requires |t| > 0 && |a| > 0 && t[0] == a[0] && t[1..] == a[1..] + b
    ensures t == a + b
  {
    assert t == [t[0]] + t[1..] && a == [a[0]] + a[1..];
  }

  /** Once there are six parts, no more of them make any difference. */
  lemma MorePartsAreIgnored(arg: string, more: string, scan: string -> Option<int>)
    requires |Tokens(arg)| >= ETH_ALEN
    ensures MacOf(arg + ":" + more, scan) == MacOf(arg, scan)
  {
    hide Tokens;
    TokensAppend(arg, more);
    var t, u := Tokens(arg), Tokens(arg + ":" + more);
    assert forall i :: 0 <= i < ETH_ALEN ==> u[i] == t[i];
    if MacOf(arg, scan).Some? {
      assert MacOf(arg + ":" + more, scan).value == MacOf(arg, scan).value;
    }
  }

  /** So the seven parts "00:11:22:33:44:55:66" are taken for an address of six. */
  lemma SevenParts(scan: string -> Option<int>)
    requires ReadsTwoDigits(scan)
    ensures MacOf("00:11:22:33:44:55:66", scan) == Some([0, 0x11, 0x22, 0x33, 0x44, 0x55])
  {
    hide MacOf, Join, HexTokens, ReadsTwoDigits;
    SixParts();
    SevenIsSixAndOne();
    ManyParts([0, 0x11, 0x22, 0x33, 0x44, 0x55], "66", scan);
  }

  lemma ManyParts(mac: seq<byte>, more: string, scan: string -> Option<int>)
    requires |mac| == ETH_ALEN && ReadsTwoDigits(scan)
    ensures MacOf(Join(HexTokens(mac)) + ":" + more, scan) == Some(mac)
  {
    MacRoundTrip(mac, scan);
    MorePartsAreIgnored(Join(HexTokens(mac)), more, scan);
  }

  lemma SevenIsSixAndOne()
    ensures "00:11:22:33:44:55" + ":" + "66" == "00:11:22:33:44:55:66"
  {
  }

  lemma SixParts()
    ensures Join(HexTokens([0, 0x11, 0x22, 0x33, 0x44, 0x55])) == "00:11:22:33:44:55"
  {
    var t := HexTokens([0, 0x11, 0x22, 0x33, 0x44, 0x55]);
    assert t[0] == "00" && t[1] == "11" && t[2] == "22" && t[3] == "33" && t[4] == "44" && t[5] == "55";
    hide HexTokens;
    JoinSix(t);
  }

  lemma JoinSix(t: seq<string>)
    requires |t| == 6
    ensures Join(t) == t[0] + ":" + t[1] + ":" + t[2] + ":" + t[3] + ":" + t[4] + ":" + t[5]
  {
    var u := [t[0]];
    assert Join(u) == t[0];
    hide Join;
    JoinOneMore(u, t[1]);
    JoinOneMore(u + [t[1]], t[2]);
    JoinOneMore(u + [t[1]] + [t[2]], t[3]);
    JoinOneMore(u + [t[1]] + [t[2]] + [t[3]], t[4]);
    JoinOneMore(u + [t[1]] + [t[2]] + [t[3]] + [t[4]], t[5]);
    assert t == u + [t[1]] + [t[2]] + [t[3]] + [t[4]] + [t[5]];
  }
}
