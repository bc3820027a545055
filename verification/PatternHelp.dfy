/**
 What a wake-up pattern matches, and what the help text of the command says it matches
 (wifi/iw/wowlan.c): there "-" also stands for several bytes.
 */
module PatternHelp {
  import opened Bytes
  import opened HexPattern
  import opened HexText
  import opened Options

  /** The pattern that is sent: one byte for each cell, compared where the mask is set. */
  predicate Matches(cells: seq<Cell>, data: seq<byte>) {
    |cells| == |data| && forall i :: 0 <= i < |cells| ==> cells[i] == Any || cells[i] == Exactly(data[i])
  }

  /** The help text: "-" stands for one byte or more. */
  ghost predicate HelpMatches(cells: seq<Cell>, data: seq<byte>)
    decreases |cells|
  {
    if cells == [] then data == []
    else if cells[0].Exactly? then data != [] && data[0] == cells[0].b && HelpMatches(cells[1..], data[1..])
    else exists k :: 1 <= k <= |data| && HelpMatches(cells[1..], data[k..])
  }

  /** What is matched by the pattern sent is matched as the help text says. */
  lemma {:induction false} MatchesAreHelpMatches(cells: seq<Cell>, data: seq<byte>)
    requires Matches(cells, data)
    ensures HelpMatches(cells, data)
  {
    if cells != [] {
      assert forall i :: 0 <= i < |cells[1..]| ==> cells[1..][i] == cells[i + 1] && data[1..][i] == data[i + 1];
      MatchesAreHelpMatches(cells[1..], data[1..]);
    }
  }

  lemma {:induction false} HelpMatchesWithoutAny(cells: seq<Cell>, data: seq<byte>)
    requires HelpMatches(cells, data) && Any !in cells
    ensures Matches(cells, data)
  {
    if cells != [] {
      assert cells[0] in cells && Any !in cells[1..];
      HelpMatchesWithoutAny(cells[1..], data[1..]);
      assert forall i :: 0 < i < |cells| ==> cells[i] == cells[1..][i - 1] && data[i] == data[1..][i - 1];
    }
  }

  /** The bytes of the cells, with zero for any byte; and one byte more at the first cell for any byte. */
  function Fill(cells: seq<Cell>): (r: seq<byte>)
    ensures |r| == |cells| && Matches(cells, r)
  {
    if cells == [] then [] else [ByteOf(cells[0])] + Fill(cells[1..])
  }

  function Longer(cells: seq<Cell>): (r: seq<byte>)
    requires Any in cells
    ensures |r| == |cells| + 1
  {
    if cells[0].Any? then [0] + Fill(cells) else [cells[0].b] + Longer(cells[1..])
  }

  lemma {:induction false} LongerIsHelpMatched(cells: seq<Cell>)
    requires Any in cells
    ensures HelpMatches(cells, Longer(cells))
  {
    var data := Longer(cells);
    if cells[0].Any? {
      assert data[2..] == Fill(cells)[1..] == Fill(cells[1..]);
      MatchesAreHelpMatches(cells[1..], data[2..]);
    } else {
      assert data[1..] == Longer(cells[1..]);
      LongerIsHelpMatched(cells[1..]);
    }
  }

  /** A pattern matches what the help text says if and only if no byte in it is left open. */
  lemma WhenTheHelpIsRight(cells: seq<Cell>)
    ensures (forall data :: Matches(cells, data) <==> HelpMatches(cells, data)) <==> Any !in cells
  {
    if Any in cells {
      LongerIsHelpMatched(cells);
      assert !Matches(cells, Longer(cells));
    } else {
      forall data
        ensures Matches(cells, data) <==> HelpMatches(cells, data)
      {
        if Matches(cells, data) {
          MatchesAreHelpMatches(cells, data);
        }
        if HelpMatches(cells, data) {
          HelpMatchesWithoutAny(cells, data);
        }
      }
    }
  }

  // ---------------------------------------------------------------- packets that go on after the pattern

  predicate MatchesStart(cells: seq<Cell>, data: seq<byte>) {
    |cells| <= |data| && Matches(cells, data[..|cells|])
  }

  ghost predicate HelpMatchesStart(cells: seq<Cell>, data: seq<byte>) {
    exists n :: 0 <= n <= |data| && HelpMatches(cells, data[..n])
  }

  /** Bytes are left open at the end of the pattern only. */
  predicate OpenAtTheEnd(cells: seq<Cell>) {
    forall i, j :: 0 <= i < j < |cells| && cells[i].Any? ==> cells[j].Any?
  }

  lemma {:induction false} HelpMatchesOpenEnd(cells: seq<Cell>, data: seq<byte>)
    requires HelpMatches(cells, data) && OpenAtTheEnd(cells)
    ensures MatchesStart(cells, data)
    decreases |cells|
  {
    if cells != [] {
      var rest := cells[1..];
      var k := if cells[0].Exactly? then 1 else var k :| 1 <= k <= |data| && HelpMatches(rest, data[k..]); k;
      HelpMatchesOpenEnd(rest, data[k..]);
      forall i | 0 <= i < |cells|
        ensures cells[i] == Any || cells[i] == Exactly(data[..|cells|][i])
      {
        if i > 0 && cells[0].Exactly? {
          assert cells[i] == rest[i - 1] && data[..|cells|][i] == data[1..][..|rest|][i - 1];
        }
      }
    }
  }

  /** A packet in which an open byte before a byte to match stands for two. */
  function Shifted(cells: seq<Cell>): (r: seq<byte>)
    requires !OpenAtTheEnd(cells)
    ensures |r| == |cells| + 1 && !Matches(cells, r[..|cells|])
  {
    if cells[0].Any? && cells[1].Exactly? then
      var x: byte := if cells[1].b == 0 then 1 else 0;
      assert ([x, x] + Fill(cells[1..]))[..|cells|][1] == x;
      [x, x] + Fill(cells[1..])
    else
      StillNotAtTheEnd(cells);
      var r := Shifted(cells[1..]);
      MatchInTheTail(cells, [ByteOf(cells[0])] + r);
      [ByteOf(cells[0])] + r
  }

  lemma StillNotAtTheEnd(cells: seq<Cell>)
    requires !OpenAtTheEnd(cells) && !(cells[0].Any? && cells[1].Exactly?)
    ensures !OpenAtTheEnd(cells[1..])
  {
    var i, j :| 0 <= i < j < |cells| && cells[i].Any? && cells[j].Exactly?;
    var k := if i == 0 then 1 else i;
    assert cells[k].Any? && k < j;
    assert cells[1..][k - 1].Any? && cells[1..][j - 1].Exactly?;
  }

  lemma MatchInTheTail(cells: seq<Cell>, data: seq<byte>)
    requires cells != [] && |data| == |cells| + 1
    ensures Matches(cells, data[..|cells|]) ==> Matches(cells[1..], data[1..][..|cells| - 1])
  {
    var n := |cells| - 1;
    forall i | 0 <= i < n
      ensures cells[1..][i] == cells[i + 1] && data[1..][..n][i] == data[..|cells|][i + 1]
    {
    }
  }

  lemma {:induction false} ShiftedIsHelpMatched(cells: seq<Cell>)
    requires !OpenAtTheEnd(cells)
    ensures HelpMatches(cells, Shifted(cells))
  {
    var data := Shifted(cells);
    if cells[0].Any? && cells[1].Exactly? {
      assert data[2..] == Fill(cells[1..]);
      MatchesAreHelpMatches(cells[1..], data[2..]);
    } else {
      StillNotAtTheEnd(cells);
      assert data[1..] == Shifted(cells[1..]);
      ShiftedIsHelpMatched(cells[1..]);
      assert cells[0].Any? ==> 1 <= 1 <= |data| && HelpMatches(cells[1..], data[1..]);
    }
  }

  /** On packets that may go on after the pattern, the two agree exactly when no byte to match follows an open one. */
  lemma WhenTheHelpIsRightAtTheStart(cells: seq<Cell>)
    ensures (forall data :: MatchesStart(cells, data) <==> HelpMatchesStart(cells, data)) <==> OpenAtTheEnd(cells)
  {
    hide OpenAtTheEnd, Matches, HelpMatches;
    if !OpenAtTheEnd(cells) {
      var data := Shifted(cells);
      ShiftedIsHelpMatched(cells);
      assert data[..|data|] == data;
      assert HelpMatchesStart(cells, data) && !MatchesStart(cells, data);
    } else {
      forall data
        ensures MatchesStart(cells, data) <==> HelpMatchesStart(cells, data)
      {
        if MatchesStart(cells, data) {
          MatchesAreHelpMatches(cells, data[..|cells|]);
        }
        if HelpMatchesStart(cells, data) {
          var n :| 0 <= n <= |data| && HelpMatches(cells, data[..n]);
          HelpMatchesOpenEnd(cells, data[..n]);
          assert data[..n][..|cells|] == data[..|cells|];
        }
      }
    }
  }

  // ---------------------------------------------------------------- the example of the help text

  const EXAMPLE: seq<Cell> := [Exactly(0x00), Exactly(0x11), Exactly(0x22), Any, Exactly(0x44)]

  /** The pattern of the help text, as it is parsed. */
  lemma ExampleIsParsed()
    ensures var tokens := Tokens("00:11:22:-:44"); AllParse(tokens, true) && CellsOf(tokens, true) == EXAMPLE
  {
    hide CellOf, Tokens, AllParse;
    var t := ["00", "11", "22", "-", "44"];
    JoinFive(t);
    assert Join(t) == "00:11:22:-:44";
    TokensOfJoin(t);
    ExampleTokens();
  }

  lemma ExampleTokens()
    ensures var t := ["00", "11", "22", "-", "44"]; AllParse(t, true) && CellsOf(t, true) == EXAMPLE
  {
    hide CellOf, Hex2;
    ExampleDigits();
    TwoDigits(0, true);
    TwoDigits(0x11, true);
    TwoDigits(0x22, true);
    TwoDigits(0x44, true);
    DashIsSkipped();
    FiveCells(["00", "11", "22", "-", "44"], EXAMPLE);
  }

  lemma ExampleDigits()
    ensures Hex2(0) == "00" && Hex2(0x11) == "11" && Hex2(0x22) == "22" && Hex2(0x44) == "44"
  {
  }

  lemma FiveCells(t: seq<string>, c: seq<Cell>)
    requires |t| == |c| == 5
    requires CellOf(t[0], true) == Some(c[0]) && CellOf(t[1], true) == Some(c[1]) && CellOf(t[2], true) == Some(c[2])
    requires CellOf(t[3], true) == Some(c[3]) && CellOf(t[4], true) == Some(c[4])
    ensures AllParse(t, true) && CellsOf(t, true) == c
  {
    hide CellOf;
    assert forall i :: 0 <= i < 5 ==> CellOf(t[i], true) == Some(c[i]);
  }

  /** It matches the first of the two packets that the help text says it matches, and not the second. */
  lemma HelpExample()
    ensures var one, two := [0x00, 0x11, 0x22, 0x33, 0x44], [0x00, 0x11, 0x22, 0x33, 0xFF, 0x44];
            && Matches(EXAMPLE, one) && HelpMatches(EXAMPLE, one)
            && !Matches(EXAMPLE, two) && HelpMatches(EXAMPLE, two)
  {
    var one: seq<byte>, two: seq<byte> := [0x00, 0x11, 0x22, 0x33, 0x44], [0x00, 0x11, 0x22, 0x33, 0xFF, 0x44];
    MatchesAreHelpMatches(EXAMPLE, one);
    var c3, d3 := EXAMPLE[1..][1..][1..], two[1..][1..][1..];
    assert c3 == [Any, Exactly(0x44)] && d3 == [0x33, 0xFF, 0x44];
    assert c3[1..] == [Exactly(0x44)] && d3[2..] == [0x44];
    assert [Exactly(0x44)][1..] == [] && HelpMatches(c3[1..], d3[2..]);
    assert HelpMatches(c3, d3);
    assert HelpMatches(EXAMPLE[1..][1..], two[1..][1..]);
    assert HelpMatches(EXAMPLE[1..], two[1..]);
  }
}
