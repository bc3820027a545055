/** `strtoul` and `strtol`, and the conversions of their results to narrower types. */
module CNumbers {
  import opened HexText

  const ULONG_MAX := 0xFFFF_FFFF_FFFF_FFFF
  const LONG_MAX := 0x7FFF_FFFF_FFFF_FFFF
  const TWO32 := 0x1_0000_0000

  type Base = b: nat | b == 8 || b == 10 || b == 16 witness 10

  predicate IsSpace(c: char) {
    c == ' ' || '\t' <= c <= '\r'
  }

  function Spaces(s: string): (n: nat)
    ensures n <= |s|
  {
    if s == [] || !IsSpace(s[0]) then 0 else 1 + Spaces(s[1..])
  }

  predicate IsDigitIn(c: char, base: Base) {
    IsHex(c) && DigitValue(c) < base
  }

  predicate AllDigits(s: string, base: Base) {
    forall i :: 0 <= i < |s| ==> IsDigitIn(s[i], base)
  }

  function LeadingDigits(s: string, base: Base): (n: nat)
    ensures n <= |s| && AllDigits(s[..n], base)
  {
    if s == [] || !IsDigitIn(s[0], base) then 0
    else
      var n := LeadingDigits(s[1..], base);
      assert forall i :: 1 <= i < n + 1 ==> s[i] == s[1..][..n][i - 1];
      1 + n
  }

  function Times(base: Base, n: nat): nat {
    if base == 8 then 8 * n else if base == 10 then 10 * n else 16 * n
  }

  /** The number a digit string writes. */
  function Number(s: string, base: Base): nat
    requires AllDigits(s, base)
  {
    if s == [] then 0 else Times(base, Number(s[..|s| - 1], base)) + DigitValue(s[|s| - 1])
  }

  /** Where a sign ends, after white space. */
  function AfterSign(s: string): (j: nat)
    ensures j <= |s|
  {
    var i := Spaces(s);
    if i < |s| && (s[i] == '-' || s[i] == '+') then i + 1 else i
  }

  predicate HasMinus(s: string) {
    Spaces(s) < |s| && s[Spaces(s)] == '-'
  }

  /** "0x" and a digit stand at `j`. */
  predicate HasHexPrefix(s: string, j: nat) {
    j + 2 < |s| && s[j] == '0' && (s[j + 1] == 'x' || s[j + 1] == 'X') && IsHex(s[j + 2])
  }

  /** Where the digits start: in base 16 a prefix "0x" may come first. */
  function DigitsStart(s: string, base: Base): (k: nat)
    ensures k <= |s|
  {
    var j := AfterSign(s);
    if base == 16 && HasHexPrefix(s, j) then j + 2 else j
  }

  /** `strtoul`: the value, and how many characters were consumed. */
  function Strtoul(s: string, base: Base): (nat, nat) {
    var k := DigitsStart(s, base);
    var n := LeadingDigits(s[k..], base);
    if n == 0 then (0, 0)
    else
      var v := Number(s[k..][..n], base);
      (if v > ULONG_MAX then ULONG_MAX else if HasMinus(s) then (ULONG_MAX + 1 - v) % (ULONG_MAX + 1) else v, k + n)
  }

  lemma {:induction false} DigitsLead(t: string, base: Base)
    requires AllDigits(t, base)
    ensures LeadingDigits(t, base) == |t|
  {
    if t != [] {
      DigitsLead(t[1..], base);
    }
  }

  lemma StartOfDigits(t: string, base: Base)
    requires AllDigits(t, base) && t != []
    ensures DigitsStart(t, base) == 0 && !HasMinus(t)
  {
    assert IsHex(t[0]) && (|t| > 1 ==> IsHex(t[1]));
  }

  /** A token of digits is read to its end. */
  lemma PlainDigits(t: string, base: Base)
    requires AllDigits(t, base) && t != []
    ensures Strtoul(t, base) == (if Number(t, base) > ULONG_MAX then ULONG_MAX else Number(t, base), |t|)
  {
    hide Number, LeadingDigits;
    StartOfDigits(t, base);
    DigitsLead(t, base);
    assert t[0..] == t && t[..|t|] == t;
  }

  /** So are a sign and digits; a minus sign negates the number modulo 2^64, unless it is too large. */
  lemma SignedDigits(sign: char, t: string, base: Base)
    requires (sign == '-' || sign == '+') && AllDigits(t, base) && t != []
    ensures var v := Number(t, base);
            Strtoul([sign] + t, base) ==
            (if v > ULONG_MAX then ULONG_MAX else if sign == '-' then (ULONG_MAX + 1 - v) % (ULONG_MAX + 1) else v, 1 + |t|)
  {
    hide Number, LeadingDigits;
    var s := [sign] + t;
    assert Spaces(s) == 0 && s[1..] == t;
    assert IsHex(t[0]) && (|t| > 1 ==> IsHex(t[1]) && s[2] == t[1]);
    assert DigitsStart(s, base) == 1;
    DigitsLead(t, base);
    assert t[..|t|] == t;
  }

  /** A token that begins neither with a decimal digit nor with white space or a sign is no number. */
  lemma WordsAreNotDecimal(t: string)
    requires t != [] && !IsDigitIn(t[0], 10) && !IsSpace(t[0]) && t[0] != '-' && t[0] != '+'
    ensures Strtoul(t, 10) == (0, 0) && !IsDecimal(t)
  {
    assert t[0..] == t;
  }

  /** The base that the base argument 0 selects. */
  function AutoBase(s: string): Base {
    var j := AfterSign(s);
    if HasHexPrefix(s, j) then 16 else if j < |s| && s[j] == '0' then 8 else 10
  }

  /** `strtol` with base 0. */
  function Strtol(s: string): (int, nat) {
    var base := AutoBase(s);
    var k := DigitsStart(s, base);
    var n := LeadingDigits(s[k..], base);
    if n == 0 then (0, 0)
    else
      (Clamped(Number(s[k..][..n], base), HasMinus(s)), k + n)
  }

  /** A magnitude and a sign, kept within a `long`. */
  function Clamped(v: int, minus: bool): int
    requires v >= 0
  {
    if minus then (if v > LONG_MAX + 1 then -LONG_MAX - 1 else -v) else (if v > LONG_MAX then LONG_MAX else v)
  }

  /** The conversion of an `unsigned long` to `int`. */
  function ToInt(v: nat): int {
    if v % TWO32 < 0x8000_0000 then v % TWO32 else v % TWO32 - TWO32
  }

  /** The token is a decimal number to its end: `strtoul` leaves nothing over. */
  predicate IsDecimal(t: string) {
    Strtoul(t, 10).1 == |t|
  }

  /** The `unsigned int` a decimal token gives. */
  function UintOf(t: string): nat {
    Strtoul(t, 10).0 % TWO32
  }

  /** How many arguments at the head are decimal numbers. */
  function Decimals(args: seq<string>): (n: nat)
    ensures n <= |args|
  {
    if args == [] || !IsDecimal(args[0]) then 0 else 1 + Decimals(args[1..])
  }

  lemma {:induction false} DecimalsIff(args: seq<string>, n: nat)
    requires n <= |args|
    ensures Decimals(args) == n <==>
            (forall i :: 0 <= i < n ==> IsDecimal(args[i])) && (n == |args| || !IsDecimal(args[n]))
  {
    hide IsDecimal;
    if n > 0 {
      DecimalsIff(args[1..], n - 1);
      var tail := args[1..];
      assert forall i :: 0 <= i < |tail| ==> tail[i] == args[i + 1];
      assert (forall i :: 0 <= i < n ==> IsDecimal(args[i])) <==>
             IsDecimal(args[0]) && forall i :: 0 <= i < n - 1 ==> IsDecimal(tail[i]) by {
        assert forall i :: 0 < i < |args| ==> args[i] == tail[i - 1];
      }
    }
  }

  // ---------------------------------------------------------------- digits, white space and bases, one by one

  /** A further digit multiplies the number by the base and adds its value. */
  lemma OneMoreDigit(s: string, c: char, base: Base)
    requires AllDigits(s, base) && IsDigitIn(c, base)
    ensures AllDigits(s + [c], base) && Number([], base) == 0
    ensures Number(s + [c], base) == base * Number(s, base) + DigitValue(c)
  {
    assert (s + [c])[..|s|] == s && (s + [c])[|s|] == c;
  }

  /** The digits of the three bases, and the characters of white space. */
  lemma WhichCharacters(c: char)
    ensures IsDigitIn(c, 8) <==> '0' <= c <= '7'
    ensures IsDigitIn(c, 10) <==> '0' <= c <= '9'
    ensures IsDigitIn(c, 16) <==> IsHex(c)
    ensures IsSpace(c) <==> c as int == 32 || 9 <= c as int <= 13
  {
  }

  /** `strtol` takes digits that do not begin with 0 for decimal. */
  lemma DecimalToken(t: string)
    requires AllDigits(t, 10) && t != [] && t[0] != '0'
    ensures Strtol(t) == (if Number(t, 10) < 0x8000_0000_0000_0000 then Number(t, 10) else 0x7FFF_FFFF_FFFF_FFFF, |t|)
  {
    hide Number, LeadingDigits;
    StartOfDigits(t, 10);
    DigitsLead(t, 10);
    assert t[0..] == t && t[..|t|] == t;
  }

  /** After a minus sign the number is negative. */
  lemma NegativeToken(t: string)
    requires AllDigits(t, 10) && t != [] && t[0] != '0'
    ensures Strtol("-" + t) ==
            (if Number(t, 10) <= 0x8000_0000_0000_0000 then -(Number(t, 10) as int) else -0x8000_0000_0000_0000, 1 + |t|)
  {
    hide Number, LeadingDigits;
    var s := "-" + t;
    assert Spaces(s) == 0 && s[1..] == t && s[1] == t[0];
    assert IsHex(t[0]);
    DigitsLead(t, 10);
    assert t[..|t|] == t;
  }

  /** Octal digits that begin with 0 are octal. */
  lemma OctalToken(t: string)
    requires AllDigits(t, 8) && t != [] && t[0] == '0'
    ensures Strtol(t) == (if Number(t, 8) < 0x8000_0000_0000_0000 then Number(t, 8) else 0x7FFF_FFFF_FFFF_FFFF, |t|)
  {
    hide Number, LeadingDigits;
    StartOfDigits(t, 8);
    DigitsLead(t, 8);
    assert |t| > 1 ==> IsHex(t[1]);
    assert t[0..] == t && t[..|t|] == t;
  }

  /** Digits after "0x" are hexadecimal. */
  lemma HexToken(t: string)
    requires AllDigits(t, 16) && t != []
    ensures Strtol("0x" + t) ==
            (if Number(t, 16) < 0x8000_0000_0000_0000 then Number(t, 16) else 0x7FFF_FFFF_FFFF_FFFF, 2 + |t|)
  {
    hide Number, LeadingDigits;
    var s := "0x" + t;
    assert Spaces(s) == 0 && s[2..] == t && s[2] == t[0] && s[0] == '0' && s[1] == 'x';
    assert IsHex(t[0]);
    DigitsLead(t, 16);
    assert t[..|t|] == t;
  }
}
