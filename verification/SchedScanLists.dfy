/** The lists that `parse_sched_scan` (wifi/iw/scan.c) collects and does not send. */
module SchedScanLists {
  import opened CNumbers
  import opened SchedScan
  import opened SchedScanMessage
  import opened SchedScanParser

  /** A clause of which something is put only when all arguments have been used. */
  predicate IsCollected(c: Clause) {
    c.Freqs? || IsMatching(c) || c.Plans? || c.Randomise? || c.Coloc? || c.Flush?
  }

  ghost predicate HasFlag(cs: seq<Clause>) {
    exists c :: c in cs && (c.Randomise? || c.Coloc? || c.Flush?)
  }

  lemma FlagsOfClauses(msg: seq<Put>, cs: seq<Clause>)
    ensures Gather(msg, cs).flags == {} <==> !HasFlag(cs)
  {
    GatheredFlags(msg, cs);
    SomeFlag(Gather(msg, cs).flags);
  }

  /** Nothing is put at the end exactly when scanning is passive and no clause is collected. */
  lemma WhenNothingIsCollected(msg: seq<Put>, cs: seq<Clause>)
    ensures FinalPuts(Gather(msg, cs), cs) == [] <==> Has(cs, IsPassive) && !Has(cs, IsCollected)
  {
    FlagsOfClauses(msg, cs);
    hide Gather;
  }

  /** The parse succeeds and leaves arguments, and has something to put that it does not put. */
  ghost predicate LosesLists(msg: seq<Put>, args: seq<string>, mac: string -> int) {
    var r := Read([], args, mac);
    r.Done? && r.rest != [] && FinalPuts(Gather(msg, r.clauses), r.clauses) != []
  }

  /** The arguments are compatible clauses, not all of them without something to put, and a foreign word. */
  ghost predicate ForeignWordFollows(args: seq<string>, mac: string -> int, cs: seq<Clause>, rest: seq<string>) {
    && Writes(args, cs, rest) && AllCompatible([], cs) && MacsParse(cs, mac)
    && rest != [] && KindOf(rest[0]) == Foreign
    && (Has(cs, IsPassive) ==> Has(cs, IsCollected))
  }

  lemma {:induction false} ForeignRest(args: seq<string>, cs: seq<Clause>, rest: seq<string>)
    requires Writes(args, cs, rest) && rest != []
    ensures KindOf(rest[0]) == Foreign
  {
    hide KindOf, InOrder, Words;
    if cs != [] {
      ForeignRest(args[|Words(cs[0])|..], cs[1..], rest);
    }
  }

  /**
   Lists are lost exactly when a foreign word follows the clauses, unless they are passive and collect
   nothing.  Without "passive" something is always lost, for then a list of names is due.
   */
  lemma WhenListsAreLost(msg: seq<Put>, args: seq<string>, mac: string -> int)
    ensures LosesLists(msg, args, mac) <==> exists cs, rest :: ForeignWordFollows(args, mac, cs, rest)
  {
    hide Read, Gather, FinalPuts, Writes, AllCompatible, MacsParse, Has, KindOf;
    if LosesLists(msg, args, mac) {
      var r := Read([], args, mac);
      assert [] + r.clauses == r.clauses;
      ReadIff([], args, mac, r.clauses, r.rest);
      ForeignRest(args, r.clauses, r.rest);
      WhenNothingIsCollected(msg, r.clauses);
      assert ForeignWordFollows(args, mac, r.clauses, r.rest);
    }
    if cs, rest :| ForeignWordFollows(args, mac, cs, rest) {
      assert [] + cs == cs;
      ReadIff([], args, mac, cs, rest);
      WhenNothingIsCollected(msg, cs);
    }
  }

  lemma OneFrequency()
    ensures IsDecimal("2412") && UintOf("2412") == 2412
  {
    var t := "2412";
    assert t[..0] == "" && t[..1] == "2" && t[..2] == "24" && t[..3] == "241" && t[..4] == t;
    assert t[..2][..1] == t[..1] && t[..3][..2] == t[..2] && t[..4][..3] == t[..3] && t[..1][..0] == t[..0];
    assert Number(t[..1], 10) == 2;
    assert Number(t[..2], 10) == 24;
    assert Number(t[..3], 10) == 241;
    assert Number(t[..4], 10) == 2412;
    hide Number;
    PlainDigits(t, 10);
  }

  lemma ForeignWord()
    ensures KindOf("disconnect") == Foreign && !IsDecimal("disconnect")
  {
    WordsAreNotDecimal("disconnect");
  }

  lemma ReadsOneFrequency(t: string, word: string, mac: string -> int)
    requires IsDecimal(t) && !IsDecimal(word) && KindOf(word) == Foreign
    ensures Read([], [FREQS, t, word], mac) == Done([Freqs([t])], [word])
  {
    Keywords();
    hide KindOf, IsDecimal, FREQS, Has, Read;
    var args, c := [FREQS, t, word], Freqs([t]);
    assert Words(c) == [FREQS, t] && args[|Words(c)|..] == [word];
    assert Writes([word], [], [word]);
    assert [c][1..] == [] && Writes(args, [c], [word]);
    assert AllCompatible([], [c]) by {
      assert !Has([], IsFreqs) by {
        Nothing([]);
      }
      assert AllCompatible([] + [c], []);
    }
    assert [] + [c] == [c] && MacsParse([c], mac);
    ReadIff([], args, mac, [c], [word]);
  }

  lemma GatheredFrequency(msg: seq<Put>, t: string)
    ensures var cs := [Freqs([t])]; PutFreqs([(0, UintOf(t))]) in FinalPuts(Gather(msg, cs), cs)
  {
    hide UintOf, KindOf;
    var c := Freqs([t]);
    Nothing(msg);
    OneMoreClause(msg, [], c);
    assert [] + [c] == [c] && NumberedFreqs([t]) == [(0, UintOf(t))];
    var g := Gather(msg, [c]);
    assert g.freqs == [(0, UintOf(t))];
    assert Has([c], IsFreqs) by {
      assert c in [c];
    }
    hide Gather, Has;
    assert PutFreqs(g.freqs) in When(true, PutFreqs(g.freqs));
  }

  /** The arguments "freqs 2412 disconnect": the parse succeeds, and the frequency is not sent. */
  lemma LostFrequency(msg: seq<Put>, mac: string -> int)
    ensures var r := Read([], [FREQS, "2412", "disconnect"], mac);
            && r == Done([Freqs(["2412"])], ["disconnect"])
            && PutFreqs([(0, 2412)]) in FinalPuts(Gather(msg, r.clauses), r.clauses)
    ensures LosesLists(msg, [FREQS, "2412", "disconnect"], mac)
  {
    hide Read, Gather, FinalPuts, KindOf, IsDecimal, UintOf, FREQS;
    OneFrequency();
    ForeignWord();
    ReadsOneFrequency("2412", "disconnect", mac);
    GatheredFrequency(msg, "2412");
  }
}
