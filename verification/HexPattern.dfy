/**
 Byte patterns with a mask: `parse_hex_mask` (wifi/iw/util.c) and the printing of wake-up patterns
 (wifi/iw/wowlan.c).
 */
module HexPattern {
  import opened BitArray
  import opened Bytes
  import opened CNumbers
  import opened HexText
  import opened Options

  // ---------------------------------------------------------------- tokens

  /** One position of a pattern: a byte to match, or any byte. */
  datatype Cell = Any | Exactly(b: byte)

  predicate IsSkip(t: string) {
    t == "-" || t == "xx" || t == "--"
  }

  function CellOf(t: string, masked: bool): Option<Cell> {
    if masked && IsSkip(t) then Some(Any)
    else
      var (v, end) := Strtoul(t, 16);
      if end != |t| || ToInt(v) < 0 || ToInt(v) > 255 then None else Some(Exactly(ToInt(v) as byte))
  }

  /**
   A token of digits is accepted exactly when the number it writes fits an `unsigned long` and leaves a
   byte when truncated to 32 bits.
   */
  lemma WhenDigitsAreAccepted(t: string, masked: bool, b: byte)
    requires AllDigits(t, 16) && t != []
    ensures CellOf(t, masked) == Some(Exactly(b)) <==> Number(t, 16) <= ULONG_MAX && Number(t, 16) % TWO32 == b as int
  {
    hide Number, Strtoul;
    PlainDigits(t, 16);
    assert IsHex(t[0]);
  }

  lemma {:induction false} NumberIsBounded(t: string)
    requires AllDigits(t, 16) && |t| <= 8
    ensures Number(t, 16) < Power16(|t|)
  {
    if t != [] {
      NumberIsBounded(t[..|t| - 1]);
    }
  }

  lemma EightDigits(n: nat)
    requires n <= 8
    ensures Power16(n) <= TWO32
    decreases 8 - n
  {
    if n < 8 {
      EightDigits(n + 1);
    } else {
      assert Power16(4) == 0x1_0000 && Power16(6) == 0x100_0000;
    }
  }

  function Power16(n: nat): nat {
    if n == 0 then 1 else 16 * Power16(n - 1)
  }

  /** Up to eight digits, that means exactly the numbers below 256. */
  lemma ShortDigits(t: string, masked: bool)
    requires AllDigits(t, 16) && 0 < |t| <= 8
    ensures CellOf(t, masked) == if Number(t, 16) < 256 then Some(Exactly(Number(t, 16) as byte)) else None
  {
    hide Number, Strtoul, Power16;
    PlainDigits(t, 16);
    assert IsHex(t[0]);
    NumberIsBounded(t);
    EightDigits(|t|);
  }

  /** Nine digits are enough for a number above 255 to be taken for a byte. */
  lemma TruncatedNumber()
    ensures AllDigits("100000041", 16) && Number("100000041", 16) == 0x1_0000_0041
    ensures CellOf("100000041", true) == Some(Exactly(0x41))
  {
    hide CellOf;
    var t := "100000041";
    assert t[..8] == "10000004" && t[..9] == t;
    OneAndZeros(t, 7);
    assert Power16(6) == 0x100_0000;
    NumberOfPrefix(t, 8);
    NumberOfPrefix(t, 7);
    WhenDigitsAreAccepted(t, true, 0x41);
  }

  function Signed(sign: char, v: nat): int {
    if sign == '-' then -(v as int) else v
  }

  /**
   With a sign before the digits, the same holds of the number so signed: a negative one may be taken for a
   byte however few its digits are.
   */
  lemma WhenSignedDigitsAreAccepted(sign: char, t: string, masked: bool, b: byte)
    requires (sign == '-' || sign == '+') && AllDigits(t, 16) && t != []
    ensures CellOf([sign] + t, masked) == Some(Exactly(b)) <==>
            Number(t, 16) <= ULONG_MAX && Signed(sign, Number(t, 16)) % TWO32 == b as int
  {
    hide Number, Strtoul;
    SignedDigits(sign, t, 16);
    var s, v := [sign] + t, Number(t, 16);
    assert IsHex(t[0]) && s[1] == t[0] && !IsSkip(s);
    hide IsSkip, ToInt;
    ByteAfterCut(Strtoul(s, 16).0, b);
    ByteAfterCut(ULONG_MAX, b);
    if v <= ULONG_MAX {
      NegatedNumber(v);
    }
  }

  lemma ByteAfterCut(v: nat, b: byte)
    ensures ToInt(v) == b as int <==> v % TWO32 == b as int
    ensures ToInt(ULONG_MAX) < 0
  {
  }

  lemma NegatedNumber(v: nat)
    requires v <= ULONG_MAX
    ensures ((ULONG_MAX + 1 - v) % (ULONG_MAX + 1)) % TWO32 == Signed('-', v) % TWO32
  {
  }

  /** Eight digits and a minus sign for one. */
  lemma NegativeNumber(masked: bool)
    ensures CellOf("-ffffffff", masked) == Some(Exactly(1))
  {
    hide CellOf;
    var t := "ffffffff";
    assert t[..8] == t && ['-'] + t == "-ffffffff";
    OnlyF(t, 8);
    assert Power16(8) == TWO32 by {
      assert Power16(4) == 0x1_0000 && Power16(6) == 0x100_0000;
    }
    WhenSignedDigitsAreAccepted('-', t, masked, 1);
  }

  lemma {:induction false} OnlyF(t: string, n: nat)
    requires AllDigits(t, 16) && n <= |t| && forall i :: 0 <= i < n ==> t[i] == 'f'
    ensures Number(t[..n], 16) == Power16(n) - 1
  {
    if n > 0 {
      NumberOfPrefix(t, n - 1);
      OnlyF(t, n - 1);
    }
  }

  lemma NumberOfPrefix(t: string, n: nat)
    requires AllDigits(t, 16) && n < |t|
    ensures Number(t[..n + 1], 16) == 16 * Number(t[..n], 16) + DigitValue(t[n])
  {
    assert t[..n + 1][..n] == t[..n];
  }

  lemma {:induction false} OneAndZeros(t: string, n: nat)
    requires AllDigits(t, 16) && 0 < n <= |t| && t[0] == '1' && forall i :: 0 < i < n ==> t[i] == '0'
    ensures Number(t[..n], 16) == Power16(n - 1)
  {
    NumberOfPrefix(t, n - 1);
    if n > 1 {
      OneAndZeros(t, n - 1);
    }
  }

  lemma TwoDigits(b: byte, masked: bool)
    ensures CellOf(Hex2(b), masked) == Some(Exactly(b))
  {
    var t := Hex2(b);
    assert t[..1] == [t[0]] && t[..1][..0] == [];
    assert Number(t[..1], 16) == DigitValue(t[0]);
    ShortDigits(t, masked);
  }

  // ---------------------------------------------------------------- parsing

  predicate AllParse(tokens: seq<string>, masked: bool) {
    forall i :: 0 <= i < |tokens| ==> CellOf(tokens[i], masked).Some?
  }

  function CellsOf(tokens: seq<string>, masked: bool): (r: seq<Cell>)
    requires AllParse(tokens, masked)
  {
    seq(|tokens|, i requires 0 <= i < |tokens| => CellOf(tokens[i], masked).value)
  }

  /** The byte stored for a cell; the buffer is cleared beforehand. */
  function ByteOf(c: Cell): byte {
    match c
    case Any => 0
    case Exactly(b) => b
  }

  /** The positions whose mask bit is set. */
  function ExactAt(cells: seq<Cell>): set<nat> {
    set i: nat | i < |cells| && cells[i].Exactly?
  }

  function DivRoundUp(n: nat, d: nat): nat
    requires d > 0
  {
    (n + d - 1) / d
  }

  /** A NUL-terminated text in its buffer. */
  ghost predicate CString(s: seq<char>) {
    |s| > 0 && s[|s| - 1] == '\0' && forall i :: 0 <= i < |s| - 1 ==> s[i] != '\0'
  }

  /** Every colon is overwritten by NUL. */
  function Cut(c: char): char {
    if c == ':' then '\0' else c
  }

  /** How many bytes the parser allocates for a text: a count that its length alone decides. */
  function Room(text: string): nat {
    |text| / 2 + 2
  }

  /** The parser reaches the token at `p` and accepts it. */
  predicate ParseUpTo(tokens: seq<string>, p: nat, masked: bool) {
    p < |tokens| && forall i :: 0 <= i <= p ==> CellOf(tokens[i], masked).Some?
  }

  /** For these tokens nothing is stored. */
  predicate IsSkipped(t: string, masked: bool) {
    masked && IsSkip(t)
  }

  /**
   The parser stores inside its arrays: it does not reach a token to store for which there is no room.  With
   a mask some tokens are skipped, and need none.
   */
  predicate HexFits(text: string, masked: bool) {
    forall p :: Room(text) <= p < |Tokens(text)| && ParseUpTo(Tokens(text), p, masked) ==>
      IsSkipped(Tokens(text)[p], masked)
  }

  function Colons(text: string): (n: nat)
    ensures n <= |text|
  {
    if text == [] then 0 else (if text[0] == ':' then 1 else 0) + Colons(text[1..])
  }

  lemma {:induction false} ColonsFromFirst(text: string, k: nat)
    requires k <= |text| && forall i :: 0 <= i < k ==> text[i] != ':'
    ensures Colons(text) == Colons(text[k..])
  {
    if k > 0 {
      ColonsFromFirst(text[1..], k - 1);
      assert text[1..][k - 1..] == text[k..];
    } else {
      assert text[0..] == text;
    }
  }

  /** There is one token more than there are colons. */
  lemma {:induction false} TokensByColons(text: string)
    ensures |Tokens(text)| == Colons(text) + 1
    decreases |text|
  {
    hide Tokens;
    var k := Colon(text);
    ColonsFromFirst(text, k);
    FirstToken(text);
    if k < |text| {
      TokensByColons(text[k + 1..]);
      assert text[k..][1..] == text[k + 1..];
    }
  }

  /**
   A text all of whose tokens parse is stored inside the arrays if and only if the tokens for which there is
   no room are skipped.
   */
  lemma WhenHexFits(text: string, masked: bool)
    requires AllParse(Tokens(text), masked)
    ensures HexFits(text, masked) <==>
            forall p :: Room(text) <= p < |Tokens(text)| ==> IsSkipped(Tokens(text)[p], masked)
  {
    hide CellOf, Tokens, IsSkipped;
    assert forall p :: 0 <= p < |Tokens(text)| ==> ParseUpTo(Tokens(text), p, masked);
  }

  /** There is a byte for every token if and only if the colons are at most half of the text plus one. */
  lemma WhenThereIsRoom(text: string)
    ensures |Tokens(text)| <= Room(text) <==> Colons(text) <= |text| / 2 + 1
  {
    hide Tokens, Colons;
    TokensByColons(text);
  }

  /**
   Without a mask, then, a text all of whose tokens parse is stored inside the array if and only if the
   colons are at most half of it plus one; empty tokens parse, as zero.
   */
  lemma WhenPlainHexFits(text: string)
    requires AllParse(Tokens(text), false)
    ensures HexFits(text, false) <==> Colons(text) <= |text| / 2 + 1
  {
    hide CellOf, Tokens, Colons;
    WhenHexFits(text, false);
    WhenThereIsRoom(text);
    var tokens, n := Tokens(text), Room(text);
    if |tokens| > n {
      assert !IsSkipped(tokens[n], false);
    }
  }

  /** A text with room for all its tokens fits, with a mask or without. */
  lemma RoomForAllFits(text: string, masked: bool)
    requires |Tokens(text)| <= Room(text)
    ensures HexFits(text, masked)
  {
    hide Tokens, CellOf;
  }

  /**
   The converse fails for a pattern that ends in skipped bytes: "::::-" is stored inside the arrays, but
   its reported length is five, where four bytes were allocated.
   */
  lemma SkippedLast()
    ensures Tokens("::::-") == ["", "", "", "", "-"] && AllParse(Tokens("::::-"), true)
    ensures HexFits("::::-", true) && Room("::::-") == 4 < |Tokens("::::-")|
  {
    var t := ["", "", "", "", "-"];
    hide Tokens, CellOf, IsSkipped, HexFits, IsSkip;
    EmptyIsZero(true);
    DashIsSkipped();
    EmptiesAndDash();
    WhenHexFits("::::-", true);
  }

  lemma EmptyIsZero(masked: bool)
    ensures CellOf("", masked) == Some(Exactly(0)) && !IsSkipped("", masked)
  {
  }

  lemma DashIsSkipped()
    ensures CellOf("-", true) == Some(Any) && IsSkipped("-", true)
  {
  }

  lemma EmptiesAndDash()
    ensures Tokens("::::-") == ["", "", "", "", "-"]
  {
    hide Tokens;
    var t := ["", "", "", "", "-"];
    JoinFive(t);
    assert Join(t) == "::::-";
    TokensOfJoin(t);
  }

  lemma JoinFive(t: seq<string>)
    requires |t| == 5
    ensures Join(t) == t[0] + ":" + t[1] + ":" + t[2] + ":" + t[3] + ":" + t[4]
  {
    var u := [t[0]];
    assert Join(u) == t[0];
    hide Join;
    JoinOneMore(u, t[1]);
    JoinOneMore(u + [t[1]], t[2]);
    JoinOneMore(u + [t[1]] + [t[2]], t[3]);
    JoinOneMore(u + [t[1]] + [t[2]] + [t[3]], t[4]);
    assert t == u + [t[1]] + [t[2]] + [t[3]] + [t[4]];
  }

  function OnlyColons(n: nat): string {
    if n == 0 then "" else ":" + OnlyColons(n - 1)
  }

  lemma {:induction false} EmptyTokens(n: nat)
    ensures var tokens := Tokens(OnlyColons(n));
            |tokens| == n + 1 && |OnlyColons(n)| == n && forall i :: 0 <= i < |tokens| ==> tokens[i] == ""
  {
    hide Tokens;
    var s := OnlyColons(n);
    FirstToken(s);
    if n > 0 {
      EmptyTokens(n - 1);
      assert Colon(s) == 0 && s[1..] == OnlyColons(n - 1);
      assert forall i :: 0 < i < |Tokens(s)| ==> Tokens(s)[i] == Tokens(s)[1..][i - 1];
    }
  }

  /** Empty tokens parse, so three colons or more are accepted and overrun the arrays. */
  lemma ColonsOverrun(n: nat, masked: bool)
    ensures HexFits(OnlyColons(n), masked) <==> n <= 2
  {
    hide Tokens, CellOf, OnlyColons, IsSkipped;
    EmptyIsZero(masked);
    EmptyTokens(n);
    var s := OnlyColons(n);
    WhenHexFits(s, masked);
    if n > 2 {
      assert !IsSkipped(Tokens(s)[Room(s)], masked);
    }
  }

  /** The argument ":::::" is one: six bytes for an array of four. */
  lemma FiveColons(masked: bool)
    ensures |Tokens(":::::")| == 6 && Room(":::::") == 4
    ensures AllParse(Tokens(":::::"), masked) && !HexFits(":::::", masked)
  {
    hide Tokens, CellOf, HexFits;
    EmptyIsZero(masked);
    assert OnlyColons(2) == "::" by {
      assert OnlyColons(1) == ":";
    }
    assert OnlyColons(5) == ":" + (":" + (":" + OnlyColons(2)));
    assert OnlyColons(5) == ":::::";
    hide OnlyColons;
    EmptyTokens(5);
    ColonsOverrun(5, masked);
  }

  /** Every text without empty tokens fits. */
  lemma NonemptyTokensFit(text: string)
    requires forall i :: 0 <= i < |Tokens(text)| ==> Tokens(text)[i] != []
    ensures |Tokens(text)| <= Room(text)
  {
    FewTokens(text);
  }

  /** The head of the loop: the next token is cut off by overwriting the colon at `cp` that ends it. */
  method CutToken(hexmask: array<char>, start: nat) returns (token: string, cp: nat)
    requires start < hexmask.Length && hexmask[hexmask.Length - 1] == '\0'
    modifies hexmask
    ensures start <= cp < hexmask.Length && hexmask[hexmask.Length - 1] == '\0'
    ensures forall i :: 0 <= i < hexmask.Length ==>
              hexmask[i] == if start <= i <= cp then Cut(old(hexmask[i])) else old(hexmask[i])
    ensures var rest := old(hexmask[start..hexmask.Length - 1]);
            && token == Tokens(rest)[0]
            && (if cp == hexmask.Length - 1 then |Tokens(rest)| == 1
                else Tokens(rest)[1..] == Tokens(rest[cp - start + 1..]))
  {
    hide Tokens;
    var end := hexmask.Length - 1;
    ghost var rest := hexmask[start..end];
    var k := Colon(hexmask[start..end]);
    cp := start + k;
    token := hexmask[start..cp];
    FirstToken(rest);
    assert token == rest[..k];
    assert forall i :: start <= i < cp ==> hexmask[i] == token[i - start];
    if cp < end {
      hexmask[cp] := '\0';
    }
  }

  /** One turn of the loop of `parse_hex_mask`, after the token has been cut out. */
  method StoreToken(token: string, masked: bool, result: array<byte>, mask: array<bv8>, pos: nat) returns (ok: bool)
    requires CellOf(token, masked).Some? && !IsSkipped(token, masked) ==>
               pos < result.Length && pos < 8 * mask.Length && result[pos] == 0
    requires result as object != mask as object
    modifies result, mask
    ensures ok <==> CellOf(token, masked).Some?
    ensures ok && IsSkipped(token, masked) ==> result[..] == old(result[..]) && CellOf(token, masked) == Some(Any)
    ensures ok && !IsSkipped(token, masked) ==>
              && CellOf(token, masked).value.Exactly?
              && result[..] == old(result[..])[pos := ByteOf(CellOf(token, masked).value)]
    ensures ok && masked ==>
              Members(mask[..]) == old(Members(mask[..])) + if CellOf(token, masked).value.Exactly? then {pos} else {}
  {
    hide Members, Strtoul, ToInt, IsSkip, Mask;
    if masked && IsSkip(token) {
      assert CellOf(token, masked) == Some(Any);
      return true;
    }
    var (v, end) := Strtoul(token, 16);
    if end != |token| {
      return false;
    }
    var temp := ToInt(v);
    if temp < 0 || temp > 255 {
      return false;
    }
    assert CellOf(token, masked) == Some(Exactly(temp as byte));
    result[pos] := temp as byte;
    assert result[..] == old(result[..])[pos := temp as byte];
    if masked {
      SetOneBit(mask[..], pos);
      ghost var before := mask[..];
      mask[pos / 8] := mask[pos / 8] | Mask(pos % 8);
      assert mask[..] == before[pos / 8 := before[pos / 8] | Mask(pos % 8)];
    }
    return true;
  }

  /**
   `parse_hex_mask`.  The text is cut at its colons in place.  The arrays are sized by the length of the
   text alone; where the parser stores outside them nothing is promised.  The length reported is the number
   of tokens, even where that is more than the arrays hold.
   */
  method ParseHexMask(hexmask: array<char>, masked: bool)
      returns (r: int, result: array<byte>, len: nat, mask: array<bv8>)
    requires CString(hexmask[..])
    requires HexFits(hexmask[..hexmask.Length - 1], masked)
    modifies hexmask
    ensures r == 0 || r == -1
    ensures var tokens := Tokens(old(hexmask[..hexmask.Length - 1]));
            && (r == 0 <==> AllParse(tokens, masked))
            && (r == 0 ==>
                  && len == |tokens| && result.Length == Room(old(hexmask[..hexmask.Length - 1]))
                  && (forall i :: 0 <= i < hexmask.Length ==> hexmask[i] == Cut(old(hexmask[i])))
                  && (forall i :: 0 <= i < len && i < result.Length ==> result[i] == ByteOf(CellsOf(tokens, masked)[i]))
                  && (len <= result.Length ==> DivRoundUp(len, 8) <= mask.Length)
                  && (masked ==> Members(mask[..]) == ExactAt(CellsOf(tokens, masked))))
  {
    hide Members, Colon, Tokens, ExactAt, CellOf, AllParse, CellsOf, IsSkipped, HexFits, Stored, IsCutBefore, Cut;
    ghost var text := hexmask[..hexmask.Length - 1];
    ghost var tokens := Tokens(text);
    var n := (hexmask.Length - 1) / 2;
    result := new byte[n + 2](_ => 0);
    mask := new bv8[DivRoundUp(n, 8) + 2](_ => 0);
    EmptyFilter(mask[..]);
    var start := 0;
    var pos := 0;
    len := 0;
    assert text[0..] == text && tokens[0..] == tokens;
    NoCells(masked);
    assert tokens[..0] == [];
    NothingStored(result[..]);
    NothingCut(hexmask[..]);
    while true
      invariant 0 <= start < hexmask.Length && len == pos < |tokens|
      invariant tokens[pos..] == Tokens(text[start..])
      invariant IsCutBefore(hexmask[..], old(hexmask[..]), start)
      invariant AllParse(tokens[..pos], masked)
      invariant |CellsOf(tokens[..pos], masked)| == pos && Stored(result[..], CellsOf(tokens[..pos], masked))
      invariant masked ==> Members(mask[..]) == ExactAt(CellsOf(tokens[..pos], masked))
      decreases hexmask.Length - start
    {
      ghost var rest, uncut := text[start..], hexmask[..];
      UncutRest(uncut, old(hexmask[..]), start);
      assert hexmask[start..hexmask.Length - 1] == rest;
      var token, cp := CutToken(hexmask, start);
      CutFurther(uncut, hexmask[..], old(hexmask[..]), start, cp);
      assert token == tokens[pos..][0] == tokens[pos];
      ghost var cells := tokens[..pos];
      assert tokens[..pos + 1] == cells + [token];
      ThereIsRoom(text, pos, masked);
      ghost var before := result[..];
      ThereIsZero(before, CellsOf(cells, masked));
      var ok := StoreToken(token, masked, result, mask, pos);
      if !ok {
        SomeBadToken(tokens, pos, masked);
        return -1, result, len, mask;
      }
      OneMoreCell(cells, token, masked);
      StoredOneMore(before, result[..], CellsOf(cells, masked), CellOf(token, masked).value);
      len := len + 1;
      pos := pos + 1;
      if cp == hexmask.Length - 1 {
        assert |tokens[pos - 1..]| == 1;
        assert tokens[..pos] == tokens;
        break;
      }
      assert tokens[pos - 1..][1..] == tokens[pos..];
      assert rest[cp - start + 1..] == text[cp + 1..];
      start := cp + 1;
    }
    StoredAll(result[..], CellsOf(tokens, masked));
    WhollyCut(hexmask[..], old(hexmask[..]));
    r := 0;
  }

  /** The text is cut before a place, and as it was from there on. */
  ghost predicate IsCutBefore(now: seq<char>, before: seq<char>, start: nat) {
    |now| == |before| && forall i :: 0 <= i < |now| ==> now[i] == if i < start then Cut(before[i]) else before[i]
  }

  lemma UncutRest(now: seq<char>, before: seq<char>, start: nat)
    requires IsCutBefore(now, before, start) && start < |now|
    ensures now[start..|now| - 1] == before[..|before| - 1][start..] && now[|now| - 1] == before[|before| - 1]
  {
  }

  lemma CutFurther(now: seq<char>, after: seq<char>, before: seq<char>, start: nat, cp: nat)
    requires IsCutBefore(now, before, start) && start <= cp < |now| == |after|
    requires forall i :: 0 <= i < |now| ==> after[i] == if start <= i <= cp then Cut(now[i]) else now[i]
    ensures IsCutBefore(after, before, cp + 1)
  {
  }

  lemma WhollyCut(now: seq<char>, before: seq<char>)
    requires IsCutBefore(now, before, |now|)
    ensures |now| == |before| && forall i :: 0 <= i < |now| ==> now[i] == Cut(before[i])
  {
  }

  lemma NothingCut(now: seq<char>)
    ensures IsCutBefore(now, now, 0)
  {
  }

  /** The bytes of the cells have been stored, as far as there is room. */
  ghost predicate Stored(result: seq<byte>, cells: seq<Cell>) {
    forall i :: 0 <= i < |result| ==> result[i] == if i < |cells| then ByteOf(cells[i]) else 0
  }

  lemma NothingStored(result: seq<byte>)
    requires forall i :: 0 <= i < |result| ==> result[i] == 0
    ensures Stored(result, [])
  {
  }

  lemma ThereIsZero(result: seq<byte>, cells: seq<Cell>)
    requires Stored(result, cells)
    ensures |cells| < |result| ==> result[|cells|] == 0
  {
  }

  lemma StoredOneMore(before: seq<byte>, after: seq<byte>, cells: seq<Cell>, c: Cell)
    requires Stored(before, cells) && (c.Exactly? ==> |cells| < |before|)
    requires after == if c.Any? then before else before[|cells| := ByteOf(c)]
    ensures Stored(after, cells + [c])
  {
  }

  lemma StoredAll(result: seq<byte>, cells: seq<Cell>)
    requires Stored(result, cells)
    ensures forall i :: 0 <= i < |cells| && i < |result| ==> result[i] == ByteOf(cells[i])
  {
  }

  lemma ThereIsRoom(text: string, pos: nat, masked: bool)
    requires HexFits(text, masked) && pos < |Tokens(text)| && AllParse(Tokens(text)[..pos], masked)
    ensures CellOf(Tokens(text)[pos], masked).Some? && !IsSkipped(Tokens(text)[pos], masked) ==> pos < Room(text)
  {
    hide Tokens, CellOf;
    var tokens := Tokens(text);
    forall i | 0 <= i < pos
      ensures CellOf(tokens[i], masked).Some?
    {
      assert tokens[i] == tokens[..pos][i];
    }
  }

  /** The bytes `parse_hex` makes of a text. */
  function ElementsOf(t: string): Option<seq<byte>> {
    var tokens := Tokens(t);
    if AllParse(tokens, false) then
      var cells := CellsOf(tokens, false);
      Some(seq(|cells|, i requires 0 <= i < |cells| => ByteOf(cells[i])))
    else None
  }

  /** `parse_hex`; its text is an argument that is not looked at again. */
  method ParseHex(t: string) returns (r: Option<seq<byte>>)
    requires '\0' !in t && HexFits(t, false)
    ensures r == ElementsOf(t)
  {
    hide Tokens, HexFits, AllParse, CellOf, ByteOf, Cut, Members, ExactAt;
    var s := t + ['\0'];
    var hex := new char[|s|](i requires 0 <= i < |s| => s[i]);
    assert hex[..] == s && hex[..hex.Length - 1] == t;
    var code, result, len, _ := ParseHexMask(hex, false);
    if code != 0 {
      return None;
    }
    WhenPlainHexFits(t);
    WhenThereIsRoom(t);
    r := Some(result[..len]);
    assert r.value == ElementsOf(t).value;
  }

  lemma SomeBadToken(tokens: seq<string>, i: nat, masked: bool)
    requires i < |tokens| && CellOf(tokens[i], masked).None?
    ensures !AllParse(tokens, masked)
  {
  }

  lemma NoCells(masked: bool)
    ensures AllParse([], masked) && CellsOf([], masked) == [] && ExactAt([]) == {}
  {
  }

  lemma OneMoreCell(tokens: seq<string>, t: string, masked: bool)
    requires AllParse(tokens, masked) && CellOf(t, masked).Some?
    ensures AllParse(tokens + [t], masked)
    ensures CellsOf(tokens + [t], masked) == CellsOf(tokens, masked) + [CellOf(t, masked).value]
    ensures var at := ExactAt(CellsOf(tokens, masked));
            ExactAt(CellsOf(tokens + [t], masked)) ==
            if CellOf(t, masked).value.Exactly? then at + {|tokens|} else at
  {
    hide CellOf;
  }

  // ---------------------------------------------------------------- printing

  /** The cells a pattern and its mask stand for. */
  function CellsIn(pat: seq<byte>, mask: seq<bv8>): (r: seq<Cell>)
    requires |pat| <= 8 * |mask|
    ensures |r| == |pat|
  {
    seq(|pat|, i requires 0 <= i < |pat| => if TestBit(mask[i / 8], i % 8) then Exactly(pat[i]) else Any)
  }

  function CellText(c: Cell): (s: string)
    ensures s != [] && ':' !in s
  {
    match c
    case Any => "--"
    case Exactly(b) => Hex2(b)
  }

  function CellTexts(cells: seq<Cell>): (r: seq<string>)
    ensures |r| == |cells| && forall i :: 0 <= i < |r| ==> r[i] == CellText(cells[i])
  {
    seq(|cells|, i requires 0 <= i < |cells| => CellText(cells[i]))
  }

  function PatternText(cells: seq<Cell>): string {
    if cells == [] then [] else Join(CellTexts(cells))
  }

  const INVALID_PATTERN := " * (invalid pattern specification)\n"

  /** The printing loop over the bytes of one pattern. */
  method PrintCells(pat: seq<byte>, mask: seq<bv8>) returns (out: string)
    requires |pat| <= 8 * |mask|
    ensures out == PatternText(CellsIn(pat, mask))
  {
    hide TestBit, PatternText, Hex2;
    ghost var cells := CellsIn(pat, mask);
    out := "";
    assert cells[..0] == [];
    NothingPrinted();
    var i := 0;
    while i < |pat|
      invariant 0 <= i <= |pat|
      invariant out == PatternText(cells[..i]) + if 0 < i < |pat| then ":" else ""
    {
      assert cells[..i + 1] == cells[..i] + [cells[i]];
      PatternGrows(cells[..i], cells[i]);
      if TestBit(mask[i / 8], i % 8) {
        out := out + Hex2(pat[i]);
      } else {
        out := out + "--";
      }
      if i != |pat| - 1 {
        out := out + ":";
      }
      i := i + 1;
    }
    assert cells[..i] == cells;
  }

  /** What `print_wowlan_handler` prints for a pattern without an offset. */
  method PrintPattern(pat: seq<byte>, mask: seq<bv8>) returns (out: string)
    ensures out == if DivRoundUp(|pat|, 8) != |mask| then INVALID_PATTERN
                   else " pattern: " + PatternText(CellsIn(pat, mask)) + "\n"
  {
    if DivRoundUp(|pat|, 8) != |mask| {
      return INVALID_PATTERN;
    }
    var cells := PrintCells(pat, mask);
    out := " pattern: " + cells + "\n";
  }

  lemma NothingPrinted()
    ensures PatternText([]) + "" == ""
  {
  }

  lemma PatternGrows(cells: seq<Cell>, c: Cell)
    ensures PatternText(cells + [c]) == PatternText(cells) + (if cells == [] then "" else ":") + CellText(c)
  {
    assert CellTexts(cells + [c]) == CellTexts(cells) + [CellText(c)];
    if cells != [] {
      JoinOneMore(CellTexts(cells), CellText(c));
    } else {
      assert Join(CellTexts([c])) == CellText(c);
    }
  }

  // ---------------------------------------------------------------- printing and reading back

  lemma PrintedCell(c: Cell)
    ensures CellOf(CellText(c), true) == Some(c)
  {
    if c.Exactly? {
      TwoDigits(c.b, true);
    }
  }

  /** The text printed for any nonempty pattern is within the parser's precondition and parses to its cells. */
  lemma CellsRoundTrip(cells: seq<Cell>)
    requires cells != []
    ensures var text := PatternText(cells);
            && HexFits(text, true)
            && AllParse(Tokens(text), true) && CellsOf(Tokens(text), true) == cells
  {
    hide CellOf, CellText;
    TokensOfJoin(CellTexts(cells));
    NonemptyTokensFit(PatternText(cells));
    forall i | 0 <= i < |cells|
      ensures CellOf(CellTexts(cells)[i], true) == Some(cells[i])
    {
      PrintedCell(cells[i]);
    }
    assert CellsOf(CellTexts(cells), true) == cells;
  }

  /**
   What the parser stores for the text of a pattern: the same bytes where the mask is set and zero
   elsewhere, and the mask bits of the pattern's positions.
   */
  lemma PatternRoundTrip(pat: seq<byte>, mask: seq<bv8>)
    requires pat != [] && |mask| == DivRoundUp(|pat|, 8)
    ensures var tokens := Tokens(PatternText(CellsIn(pat, mask)));
            && AllParse(tokens, true) && |tokens| == |pat|
            && (forall i :: 0 <= i < |pat| ==>
                  ByteOf(CellsOf(tokens, true)[i]) == if TestBit(mask[i / 8], i % 8) then pat[i] else 0)
            && ExactAt(CellsOf(tokens, true)) == set i | i in Members(mask) && i < |pat|
  {
    hide TestBit, CellOf, PatternText, Tokens;
    CellsRoundTrip(CellsIn(pat, mask));
  }

  /**
   A mask of the right length that has the bits read back is the original exactly when the original
   has no bit beyond the pattern.
   */
  lemma MaskRoundTrip(pat: seq<byte>, mask: seq<bv8>, back: seq<bv8>)
    requires pat != [] && |mask| == |back| == DivRoundUp(|pat|, 8)
    requires Members(back) == set i | i in Members(mask) && i < |pat|
    ensures back == mask <==> forall i :: i in Members(mask) ==> i < |pat|
  {
    hide Members;
    if forall i :: i in Members(mask) ==> i < |pat| {
      assert Members(back) == Members(mask);
      FilterOfItsBits(back, mask);
    }
  }

  /** The mask bytes put into a message, a prefix of the parser's buffer, have the bits of the buffer. */
  lemma SentMask(mask: seq<bv8>, cells: seq<Cell>)
    requires DivRoundUp(|cells|, 8) <= |mask| && Members(mask) == ExactAt(cells)
    ensures Members(mask[..DivRoundUp(|cells|, 8)]) == ExactAt(cells)
  {
    hide TestBit;
    var n := DivRoundUp(|cells|, 8);
    forall i: nat
      ensures i in Members(mask[..n]) <==> i in Members(mask)
    {
      if i in Members(mask) {
        assert i < |cells| && i / 8 < n;
      }
    }
  }

  // ---------------------------------------------------------------- tokens, one by one

  /** A pattern takes three tokens for any byte; where there is no mask they are no bytes either. */
  lemma WhichTokensAreSkipped(t: string)
    ensures CellOf(t, true) == Some(Any) <==> t == "-" || t == "xx" || t == "--"
    ensures t == "-" || t == "xx" || t == "--" ==> CellOf(t, false) == None
  {
  }
}
