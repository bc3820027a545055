/**
 What becomes of the guard intervals and of stray words in the arguments of `set_bitrates`
 (wifi/iw/bitrate.c): which bands get the values given for them, and which words are dropped.
 */
module BandGuards {
  import opened Bitrates
  import opened BitratesParser
  import opened Options
  import opened RateChunks

  // ---------------------------------------------------------------- values given for a band

  /** The last word after the guard interval sections of this band. */
  function OwnGi(cs: seq<Clause>, x: Band): Option<string> {
    if cs == [] then None
    else
      var n := |cs| - 1;
      if SectionAt(cs[n]) == Some(HeGi(x)) && cs[n].words != []
      then Some(cs[n].words[|cs[n].words| - 1])
      else OwnGi(cs[..n], x)
  }

  /** The value of the last word after the LTF sections of this band. */
  function OwnLtf(cs: seq<Clause>, x: Band): Option<int> {
    if cs == [] then None
    else
      var n := |cs| - 1;
      if SectionAt(cs[n]) == Some(HeLtf(x)) && cs[n].words != []
      then Some(LtfOf(cs[n].words[|cs[n].words| - 1]) / 2)
      else OwnLtf(cs[..n], x)
  }

  /** Some band has the shared guard interval for its own, if any band has one. */
  lemma {:induction false} SharedGiIsOwn(cs: seq<Clause>)
    ensures LastGi(cs).Some? ==> exists x :: OwnGi(cs, x) == LastGi(cs)
    ensures LastGi(cs).None? ==> forall x :: OwnGi(cs, x).None?
  {
    hide SectionOf;
    if cs != [] {
      var n := |cs| - 1;
      SharedGiIsOwn(cs[..n]);
      if SectionAt(cs[n]).Some? && SectionAt(cs[n]).value.HeGi? && cs[n].words != [] {
        assert OwnGi(cs, SectionAt(cs[n]).value.b) == LastGi(cs);
      } else {
        assert forall x :: OwnGi(cs, x) == OwnGi(cs[..n], x);
      }
    }
  }

  /** The same for the LTF size. */
  lemma {:induction false} SharedLtfIsOwn(cs: seq<Clause>, y: Band)
    ensures OwnLtf(cs, y).Some? ==> exists x :: OwnLtf(cs, x) == Some(LastLtf(cs))
  {
    hide SectionOf, LtfOf;
    if cs != [] {
      var n := |cs| - 1;
      SharedLtfIsOwn(cs[..n], y);
      if SectionAt(cs[n]).Some? && SectionAt(cs[n]).value.HeLtf? && cs[n].words != [] {
        assert OwnLtf(cs, SectionAt(cs[n]).value.b) == Some(LastLtf(cs));
      } else {
        assert forall x :: OwnLtf(cs, x) == OwnLtf(cs[..n], x);
      }
    }
  }

  /** A band with a value of its own has asked for one. */
  lemma {:induction false} OwnIsAsked(cs: seq<Clause>, x: Band)
    ensures OwnGi(cs, x).Some? ==> Has(cs, HeGi(x))
    ensures OwnLtf(cs, x).Some? ==> Has(cs, HeLtf(x))
  {
    hide SectionOf, LtfOf;
    if cs != [] {
      var n := |cs| - 1;
      OwnIsAsked(cs[..n], x);
      assert cs == cs[..n] + [cs[n]];
      HasOneMore(cs[..n], cs[n], HeGi(x));
      HasOneMore(cs[..n], cs[n], HeLtf(x));
    }
  }

  // ---------------------------------------------------------------- which bands get theirs

  ghost predicate DescribesAll(m: Band -> BandMask, cs: seq<Clause>, lib: Library) {
    forall x :: Describes(m(x), cs, x, lib)
  }

  /** No two bands are given different guard intervals. */
  ghost predicate GisAgree(cs: seq<Clause>) {
    forall x, y :: OwnGi(cs, x).Some? && OwnGi(cs, y).Some? ==> OwnGi(cs, x) == OwnGi(cs, y)
  }

  ghost predicate LtfsAgree(cs: seq<Clause>) {
    forall x, y :: OwnLtf(cs, x).Some? && OwnLtf(cs, y).Some? ==> OwnLtf(cs, x) == OwnLtf(cs, y)
  }

  /** Every band that is given a guard interval is given the shared one. */
  ghost predicate GiIsShared(cs: seq<Clause>) {
    forall x :: OwnGi(cs, x).Some? ==> OwnGi(cs, x) == LastGi(cs)
  }

  ghost predicate LtfIsShared(cs: seq<Clause>) {
    forall x :: OwnLtf(cs, x).Some? ==> OwnLtf(cs, x) == Some(LastLtf(cs))
  }

  lemma WhenGiIsShared(cs: seq<Clause>)
    ensures GiIsShared(cs) <==> GisAgree(cs)
  {
    SharedGiIsOwn(cs);
    if LastGi(cs).Some? {
      var x :| OwnGi(cs, x) == LastGi(cs);
      hide OwnGi, LastGi;
    }
  }

  lemma WhenLtfIsShared(cs: seq<Clause>)
    ensures LtfIsShared(cs) <==> LtfsAgree(cs)
  {
    if LtfsAgree(cs) {
      forall y | OwnLtf(cs, y).Some?
        ensures OwnLtf(cs, y) == Some(LastLtf(cs))
      {
        SharedLtfIsOwn(cs, y);
        var x :| OwnLtf(cs, x) == Some(LastLtf(cs));
        assert OwnLtf(cs, x).Some?;
      }
    }
  }

  lemma GiOfIsInjective(s: string, t: string)
    requires GiOf(s).Some? && GiOf(s) == GiOf(t)
    ensures s == t
  {
  }

  /** Every band is sent the guard interval given for it if and only if no two bands are given different ones. */
  lemma WhenBandsGetTheirGi(m: Band -> BandMask, cs: seq<Clause>, lib: Library)
    requires DescribesAll(m, cs, lib) && GuardsOk(cs)
    ensures (forall x :: OwnGi(cs, x).Some? ==> m(x).heGi.Some? && m(x).heGi == GiOf(OwnGi(cs, x).value)) <==> GisAgree(cs)
  {
    hide GiOf, Has, BytesOf, WordsIn, MapsOf, OwnGi, LastGi;
    WhenGiIsShared(cs);
    forall x | OwnGi(cs, x).Some?
      ensures m(x).heGi.Some? && (m(x).heGi == GiOf(OwnGi(cs, x).value) <==> LastGi(cs) == OwnGi(cs, x))
    {
      OwnIsAsked(cs, x);
      SharedGiIsOwn(cs);
      assert Describes(m(x), cs, x, lib);
      var last := LastGi(cs).value;
      if GiOf(last) == GiOf(OwnGi(cs, x).value) {
        GiOfIsInjective(last, OwnGi(cs, x).value);
      }
    }
  }

  /** The same for the LTF size. */
  lemma WhenBandsGetTheirLtf(m: Band -> BandMask, cs: seq<Clause>, lib: Library)
    requires DescribesAll(m, cs, lib)
    ensures (forall x :: OwnLtf(cs, x).Some? ==> m(x).heLtf == OwnLtf(cs, x)) <==> LtfsAgree(cs)
  {
    hide Has, BytesOf, WordsIn, MapsOf, OwnLtf, LastLtf;
    WhenLtfIsShared(cs);
    forall x | OwnLtf(cs, x).Some?
      ensures m(x).heLtf == Some(LastLtf(cs))
    {
      OwnIsAsked(cs, x);
      assert Describes(m(x), cs, x, lib);
    }
  }

  /** Two clauses of one word each, and what the sections of their bands are given. */
  function TwoGis(s: string, t: string): seq<Clause> {
    [Clause("he-gi-2.4", [s]), Clause("he-gi-5", [t])]
  }

  lemma TwoGisAre(s: string, t: string)
    requires SectionOf(s).None? && SectionOf(t).None?
    ensures Flatten(TwoGis(s, t)) == ["he-gi-2.4", s, "he-gi-5", t]
    ensures Starts(Flatten(TwoGis(s, t))) && Clauses(Flatten(TwoGis(s, t))) == TwoGis(s, t)
    ensures OwnGi(TwoGis(s, t), B24) == Some(s) && OwnGi(TwoGis(s, t), B5) == LastGi(TwoGis(s, t)) == Some(t)
  {
    var cs := TwoGis(s, t);
    assert SectionAt(cs[0]) == Some(HeGi(B24)) && SectionAt(cs[1]) == Some(HeGi(B5));
    hide SectionOf;
    ClausesOfFlatten(cs);
    assert cs[..1] == [cs[0]] && cs[1..] == [cs[1]];
    FlattenOne(cs[1]);
    assert Flatten(cs) == WordsOf(cs[0]) + WordsOf(cs[1]);
    assert OwnGi(cs[..1], B24) == Some(s);
  }

  /** Two clauses that the loop accepts, without rate chunks and without a conflict of guard intervals. */
  lemma TwoClausesAreAccepted(c: Clause, d: Clause, lib: Library)
    requires ClauseOk(c, lib) && ClauseOk(d, lib) && SectionAt(c).Some? && SectionAt(d).Some? && SectionAt(c) != SectionAt(d)
    requires !SectionAt(c).value.Vht? && !SectionAt(c).value.He? && !SectionAt(c).value.Sgi? && !SectionAt(c).value.Lgi?
    requires !SectionAt(d).value.Vht? && !SectionAt(d).value.He? && !SectionAt(d).value.Lgi?
    requires LastGi([c, d]).Some? ==> GiOf(LastGi([c, d]).value).Some?
    ensures LoopOk([c, d], lib) && AllChunkSections([c, d], lib) && GuardsOk([c, d])
  {
    hide SectionAt, ClauseOk, LastGi, GiOf, WordsIn, AllChunks;
    forall x: Section | Has([c, d], x)
      ensures Some(x) == SectionAt(c) || Some(x) == SectionAt(d)
    {
      var e :| e in [c, d] && SectionAt(e) == Some(x);
    }
    hide Has;
  }

  lemma TwoGisAreAccepted(s: string, t: string, lib: Library)
    requires SectionOf(s).None? && SectionOf(t).None? && GiOf(t).Some?
    ensures Accepted(["he-gi-2.4", s, "he-gi-5", t], lib)
  {
    hide GiOf;
    TwoGisAre(s, t);
    var cs := TwoGis(s, t);
    assert SectionAt(cs[0]) == Some(HeGi(B24)) && SectionAt(cs[1]) == Some(HeGi(B5));
    hide Flatten, Clauses, SectionOf, OwnGi, LastGi, LoopOk, AllChunkSections, GuardsOk;
    TwoClausesAreAccepted(cs[0], cs[1], lib);
  }

  /** The arguments "he-gi-2.4 0.8 he-gi-5 3.2" are accepted, and 3.2 is sent for both bands. */
  lemma DifferentGis(m: Band -> BandMask, lib: Library)
    requires DescribesAll(m, TwoGis("0.8", "3.2"), lib)
    ensures Accepted(["he-gi-2.4", "0.8", "he-gi-5", "3.2"], lib)
    ensures m(B24).heGi == m(B5).heGi == GiOf("3.2") == Some(2) && GiOf("0.8") == Some(0)
  {
    assert SectionOf("0.8").None? && SectionOf("3.2").None? && GiOf("0.8") == Some(0) && GiOf("3.2") == Some(2);
    hide SectionOf, GiOf, Accepted, OwnGi, Flatten, Clauses, LastGi;
    TwoGisAre("0.8", "3.2");
    TwoGisAreAccepted("0.8", "3.2", lib);
    OwnIsAsked(TwoGis("0.8", "3.2"), B24);
    OwnIsAsked(TwoGis("0.8", "3.2"), B5);
    assert Describes(m(B24), TwoGis("0.8", "3.2"), B24, lib) && Describes(m(B5), TwoGis("0.8", "3.2"), B5, lib);
  }

  /** A value that is no guard interval is accepted for a band if a later band overrides it. */
  lemma UncheckedGi(lib: Library)
    ensures Accepted(["he-gi-2.4", "foo", "he-gi-5", "3.2"], lib)
    ensures OwnGi(TwoGis("foo", "3.2"), B24) == Some("foo") && GiOf("foo").None?
  {
    assert SectionOf("foo").None? && SectionOf("3.2").None? && GiOf("foo").None? && GiOf("3.2").Some?;
    hide SectionOf, GiOf, Accepted, OwnGi, Flatten, Clauses;
    TwoGisAre("foo", "3.2");
    TwoGisAreAccepted("foo", "3.2", lib);
  }
}
