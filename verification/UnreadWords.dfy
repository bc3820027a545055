/**
 Words that `set_bitrates` (wifi/iw/bitrate.c) passes over: those that can be replaced by any others
 without a difference.
 */
module UnreadWords {
  import opened BandGuards
  import opened Bitrates
  import opened BitratesParser
  import opened CNumbers
  import opened Options
  import opened RateChunks

  /** A section whose words are skipped. */
  predicate IsGuard(c: Clause) {
    SectionAt(c).Some? && (SectionAt(c).value.Sgi? || SectionAt(c).value.Lgi?)
  }

  /** A section whose words overwrite each other. */
  predicate IsGi(c: Clause) {
    SectionAt(c).Some? && SectionAt(c).value.HeGi?
  }

  /** No guard interval word follows the clause at `i`. */
  predicate NoGiAfter(cs: seq<Clause>, i: nat) {
    forall k :: i < k < |cs| && IsGi(cs[k]) ==> cs[k].words == []
  }

  /** The last of all guard interval words, whatever the band. */
  predicate IsLastGi(cs: seq<Clause>, i: nat, j: nat)
    requires i < |cs|
  {
    IsGi(cs[i]) && j == |cs[i].words| - 1 && NoGiAfter(cs, i)
  }

  function Replaced(cs: seq<Clause>, i: nat, j: nat, w: string): (r: seq<Clause>)
    requires i < |cs| && j < |cs[i].words|
    ensures |r| == |cs|
  {
    cs[i := cs[i].(words := cs[i].words[j := w])]
  }

  /** Any word that begins no section can stand in this place: the result and the masks are the same. */
  ghost predicate Unread(cs: seq<Clause>, i: nat, j: nat, lib: Library)
    requires i < |cs| && j < |cs[i].words|
  {
    forall w :: SectionOf(w).None? ==> Indifferent(cs, Replaced(cs, i, j, w), lib)
  }

  ghost predicate Indifferent(cs: seq<Clause>, ds: seq<Clause>, lib: Library) {
    && (forall tid :: Returned(Flatten(ds), tid, lib) == Returned(Flatten(cs), tid, lib))
    && (forall b, x :: Describes(b, ds, x, lib) <==> Describes(b, cs, x, lib))
  }

  // ---------------------------------------------------------------- clauses that differ in such words

  /** The same sections, and the same words where they are read one by one. */
  ghost predicate Alike(cs: seq<Clause>, ds: seq<Clause>) {
    && |cs| == |ds|
    && (forall i :: 0 <= i < |cs| ==> ds[i].word == cs[i].word && (IsGuard(cs[i]) || IsGi(cs[i]) || ds[i] == cs[i]))
  }

  /** Clauses that say the same to what follows the loop. */
  ghost predicate SaysTheSame(cs: seq<Clause>, ds: seq<Clause>) {
    && (forall s :: Has(ds, s) <==> Has(cs, s))
    && (forall s: Section :: !s.Sgi? && !s.Lgi? && !s.HeGi? ==> WordsIn(ds, s) == WordsIn(cs, s))
    && LastGi(ds) == LastGi(cs) && LastLtf(ds) == LastLtf(cs)
  }

  lemma {:induction false} AlikeSays(cs: seq<Clause>, ds: seq<Clause>)
    requires Alike(cs, ds)
    ensures forall s :: Has(ds, s) <==> Has(cs, s)
    ensures forall s: Section :: !s.Sgi? && !s.Lgi? && !s.HeGi? ==> WordsIn(ds, s) == WordsIn(cs, s)
    ensures LastLtf(ds) == LastLtf(cs)
  {
    hide SectionOf, LtfOf, Has;
    if cs != [] {
      var n := |cs| - 1;
      AlikeSays(cs[..n], ds[..n]);
      assert cs == cs[..n] + [cs[n]] && ds == ds[..n] + [ds[n]] && SectionAt(ds[n]) == SectionAt(cs[n]);
      forall s
        ensures Has(ds, s) <==> Has(cs, s)
      {
        HasOneMore(cs[..n], cs[n], s);
        HasOneMore(ds[..n], ds[n], s);
      }
    }
  }

  lemma AlikeIsAccepted(cs: seq<Clause>, ds: seq<Clause>, lib: Library)
    requires Alike(cs, ds)
    ensures LoopOk(ds, lib) <==> LoopOk(cs, lib)
  {
    hide SectionOf;
    forall i | 0 <= i < |cs|
      ensures SectionAt(ds[i]) == SectionAt(cs[i]) && (ClauseOk(ds[i], lib) <==> ClauseOk(cs[i], lib))
    {
    }
    hide ClauseOk;
  }

  lemma SameChecks(cs: seq<Clause>, ds: seq<Clause>, lib: Library)
    requires SaysTheSame(cs, ds)
    ensures AllChunkSections(ds, lib) == AllChunkSections(cs, lib) && GuardsOk(ds) == GuardsOk(cs)
  {
    hide Has, WordsIn, LastGi, LastLtf, AllChunks, GiOf;
  }

  lemma SameMask(cs: seq<Clause>, ds: seq<Clause>, b: BandMask, x: Band, lib: Library)
    requires SaysTheSame(cs, ds)
    ensures Describes(b, ds, x, lib) <==> Describes(b, cs, x, lib)
  {
    hide Has, WordsIn, LastGi, LastLtf, BytesOf, MapsOf, GiOf;
  }

  /** Such clauses with the same last guard interval word give the same result and the same masks. */
  lemma AlikeIsTheSame(cs: seq<Clause>, ds: seq<Clause>, lib: Library)
    requires AllClauses(cs) && AllClauses(ds) && Alike(cs, ds) && LastGi(ds) == LastGi(cs)
    ensures Accepted(Flatten(ds), lib) <==> Accepted(Flatten(cs), lib)
    ensures Returned(Flatten(ds), false, lib) == Returned(Flatten(cs), false, lib)
    ensures |Flatten(ds)| == |Flatten(cs)| ==> Returned(Flatten(ds), true, lib) == Returned(Flatten(cs), true, lib)
    ensures forall b, x :: Describes(b, ds, x, lib) <==> Describes(b, cs, x, lib)
  {
    hide AllChunkSections, GuardsOk, LoopOk, Describes, Alike;
    AlikeSays(cs, ds);
    AlikeIsAccepted(cs, ds, lib);
    SameChecks(cs, ds, lib);
    ClausesOfFlatten(cs);
    ClausesOfFlatten(ds);
    forall b, x
      ensures Describes(b, ds, x, lib) <==> Describes(b, cs, x, lib)
    {
      SameMask(cs, ds, b, x, lib);
    }
    hide Flatten, Clauses, Starts;
  }

  /** The last guard interval word is the one that is looked at. */
  lemma {:induction false} LastGiIs(cs: seq<Clause>, i: nat)
    requires i < |cs| && IsGi(cs[i]) && cs[i].words != [] && NoGiAfter(cs, i)
    ensures LastGi(cs) == Some(cs[i].words[|cs[i].words| - 1])
  {
    hide SectionOf;
    var n := |cs| - 1;
    if i < n {
      LastGiIs(cs[..n], i);
    }
  }

  lemma {:induction false} NoLastGi(cs: seq<Clause>)
    requires forall i :: 0 <= i < |cs| && IsGi(cs[i]) ==> cs[i].words == []
    ensures LastGi(cs) == None
  {
    hide SectionOf;
    if cs != [] {
      NoLastGi(cs[..|cs| - 1]);
    }
  }

  /** Guard interval words are followed by a last one. */
  lemma {:induction false} SomeLastGi(cs: seq<Clause>, i: nat) returns (k: nat)
    requires i < |cs| && IsGi(cs[i]) && cs[i].words != []
    ensures i <= k < |cs| && IsGi(cs[k]) && cs[k].words != [] && NoGiAfter(cs, k)
    decreases |cs| - i
  {
    hide IsGi;
    if NoGiAfter(cs, i) {
      k := i;
    } else {
      var m :| i < m < |cs| && IsGi(cs[m]) && cs[m].words != [];
      k := SomeLastGi(cs, m);
    }
  }

  // ---------------------------------------------------------------- which words are unread

  lemma ReplacedClauses(cs: seq<Clause>, i: nat, j: nat, w: string)
    requires AllClauses(cs) && i < |cs| && j < |cs[i].words| && SectionOf(w).None?
    ensures AllClauses(Replaced(cs, i, j, w))
  {
    hide SectionOf;
    var ds := Replaced(cs, i, j, w);
    forall k | 0 <= k < |ds|
      ensures IsClause(ds[k])
    {
      assert IsClause(cs[k]);
    }
  }

  lemma {:induction false} SameLength(cs: seq<Clause>, ds: seq<Clause>)
    requires |cs| == |ds| && forall i :: 0 <= i < |cs| ==> |ds[i].words| == |cs[i].words|
    ensures |Flatten(ds)| == |Flatten(cs)|
  {
    if cs != [] {
      SameLength(cs[1..], ds[1..]);
    }
  }

  lemma SkippedIsUnread(cs: seq<Clause>, i: nat, j: nat, w: string, lib: Library)
    requires AllClauses(cs) && i < |cs| && j < |cs[i].words| && SectionOf(w).None?
    requires IsGuard(cs[i]) || (IsGi(cs[i]) && !IsLastGi(cs, i, j))
    ensures Indifferent(cs, Replaced(cs, i, j, w), lib)
  {
    hide Describes, Returned, SectionOf;
    var ds := Replaced(cs, i, j, w);
    ReplacedClauses(cs, i, j, w);
    SameLength(cs, ds);
    assert Alike(cs, ds);
    SameLastGi(cs, i, j, w);
    AlikeIsTheSame(cs, ds, lib);
  }

  lemma SameLastGi(cs: seq<Clause>, i: nat, j: nat, w: string)
    requires i < |cs| && j < |cs[i].words|
    requires IsGuard(cs[i]) || (IsGi(cs[i]) && !IsLastGi(cs, i, j))
    ensures LastGi(Replaced(cs, i, j, w)) == LastGi(cs)
  {
    hide SectionOf, LastGi;
    var ds := Replaced(cs, i, j, w);
    assert forall k :: 0 <= k < |cs| ==> (IsGi(ds[k]) <==> IsGi(cs[k])) && |ds[k].words| == |cs[k].words|;
    if a :| 0 <= a < |cs| && IsGi(cs[a]) && cs[a].words != [] {
      var k := SomeLastGi(cs, a);
      LastGiIs(cs, k);
      LastGiIs(ds, k);
    } else {
      NoLastGi(cs);
      NoLastGi(ds);
    }
  }

  /** A word that is refused wherever words are read. */
  ghost predicate Refused(w: string, lib: Library) {
    && SectionOf(w).None? && GiOf(w).None? && Strtol(w).1 != |w| && lib.rate(w).Unread?
    && ChunkOf(w, VHT, lib.sc).None? && ChunkOf(w, HE, lib.sc).None?
  }

  lemma {:induction false} WordIsIn(cs: seq<Clause>, i: nat, s: Section)
    requires i < |cs| && SectionAt(cs[i]) == Some(s)
    ensures Has(cs, s) && forall w :: w in cs[i].words ==> w in WordsIn(cs, s)
  {
    hide SectionOf;
    var n := |cs| - 1;
    if i < n {
      WordIsIn(cs[..n], i, s);
      assert cs[i] in cs;
    }
  }

  /** Where a word is read, a refused one in its place makes the arguments fail. */
  lemma RefusedWordFails(cs: seq<Clause>, i: nat, j: nat, w: string, lib: Library)
    requires AllClauses(cs) && i < |cs| && j < |cs[i].words| && cs[i].words[j] == w && Refused(w, lib)
    requires !IsGuard(cs[i]) && (IsGi(cs[i]) ==> IsLastGi(cs, i, j))
    ensures Returned(Flatten(cs), false, lib) != 0
  {
    hide Flatten, Clauses, Starts;
    ClausesOfFlatten(cs);
    var s := SectionAt(cs[i]).value;
    if s.HeGi? {
      LastGiIs(cs, i);
      hide LoopOk, AllChunkSections, LastGi, GiOf, Has;
    } else if s.Vht? || s.He? {
      WordIsIn(cs, i, s);
      ChunkSectionFails(cs, s, w, lib);
      hide LoopOk, AllChunkSections, GuardsOk;
    } else {
      hide AllChunkSections, GuardsOk;
      assert !ClauseOk(cs[i], lib);
    }
  }

  lemma ChunkSectionFails(cs: seq<Clause>, s: Section, w: string, lib: Library)
    requires (s.Vht? || s.He?) && Has(cs, s) && w in WordsIn(cs, s) && Refused(w, lib)
    ensures !AllChunkSections(cs, lib)
  {
    NoVhtAt6(cs);
    hide Has, WordsIn, ChunkOf, SectionOf;
    assert !AllChunks(WordsIn(cs, s), VHT, lib.sc) && !AllChunks(WordsIn(cs, s), HE, lib.sc);
    hide AllChunks;
    assert !ChunksOf(cs, s, VHT, lib) && !ChunksOf(cs, s, HE, lib);
    assert s.b == B24 || s.b == B5 || s.b == B6;
    assert s == if s.Vht? then Vht(s.b) else He(s.b);
    hide ChunksOf;
  }

  /**
   A word of arguments that make a mask is unread if and only if it follows "sgi" or "lgi", or is a guard
   interval that a later one overwrites.  All that is assumed is that the library refuses some word.
   */
  lemma WhenAWordIsUnread(cs: seq<Clause>, i: nat, j: nat, lib: Library, v: string)
    requires AllClauses(cs) && Accepted(Flatten(cs), lib) && i < |cs| && j < |cs[i].words| && Refused(v, lib)
    ensures Unread(cs, i, j, lib) <==> IsGuard(cs[i]) || (IsGi(cs[i]) && !IsLastGi(cs, i, j))
  {
    hide Accepted, Flatten, LoopOk, Describes, SectionOf, GiOf, Strtol, ChunkOf;
    if IsGuard(cs[i]) || (IsGi(cs[i]) && !IsLastGi(cs, i, j)) {
      hide Indifferent, IsGuard, IsGi, IsLastGi;
      forall w | SectionOf(w).None?
        ensures Indifferent(cs, Replaced(cs, i, j, w), lib)
      {
        SkippedIsUnread(cs, i, j, w, lib);
      }
    } else {
      var ds := Replaced(cs, i, j, v);
      ReplacedClauses(cs, i, j, v);
      assert IsGi(ds[i]) ==> IsLastGi(ds, i, j);
      RefusedWordFails(ds, i, j, v, lib);
      AcceptedReturnsZero(Flatten(cs), lib);
      hide Returned;
      assert !Indifferent(cs, ds, lib);
    }
  }

  lemma AcceptedReturnsZero(args: seq<string>, lib: Library)
    requires Accepted(args, lib)
    ensures Returned(args, false, lib) == 0
  {
    hide LoopOk, AllChunkSections, GuardsOk, Starts, Clauses;
  }

  /** There is such a word: "zz", if the library does not take it for a number. */
  lemma SomeRefusedWord(lib: Library)
    requires lib.rate("zz").Unread? && |lib.sc.list("zz", VHT)| < 2 && |lib.sc.list("zz", HE)| < 2
    ensures Refused("zz", lib)
  {
    assert DigitsStart("zz", 10) == 0 && "zz"[0..] == "zz" && LeadingDigits("zz", 10) == 0;
    assert AutoBase("zz") == 10;
  }

  // ---------------------------------------------------------------- without the unread words

  /** The words of a clause that are read. */
  function Kept(cs: seq<Clause>, i: nat): seq<string>
    requires i < |cs|
  {
    var c := cs[i];
    if IsGuard(c) then []
    else if IsGi(c) && c.words != [] then (if NoGiAfter(cs, i) then [c.words[|c.words| - 1]] else [])
    else c.words
  }

  /** The clauses without the unread words. */
  function Strip(cs: seq<Clause>): (r: seq<Clause>)
    ensures |r| == |cs|
  {
    seq(|cs|, i requires 0 <= i < |cs| => Clause(cs[i].word, Kept(cs, i)))
  }

  lemma StripIsAlike(cs: seq<Clause>)
    requires AllClauses(cs)
    ensures AllClauses(Strip(cs)) && Alike(cs, Strip(cs))
  {
    hide SectionOf;
    forall i | 0 <= i < |cs|
      ensures IsClause(Strip(cs)[i])
    {
      assert IsClause(cs[i]);
    }
  }

  lemma StripKeepsLastGi(cs: seq<Clause>)
    ensures LastGi(Strip(cs)) == LastGi(cs)
  {
    hide SectionOf, LastGi;
    var ds := Strip(cs);
    assert forall k :: 0 <= k < |cs| ==> (IsGi(ds[k]) <==> IsGi(cs[k]));
    if a :| 0 <= a < |cs| && IsGi(cs[a]) && cs[a].words != [] {
      var k := SomeLastGi(cs, a);
      LastGiIs(cs, k);
      assert ds[k].words == [cs[k].words[|cs[k].words| - 1]];
      LastGiIs(ds, k);
    } else {
      NoLastGi(cs);
      NoLastGi(ds);
    }
  }

  /** Dropping all unread words at once changes neither the value returned nor the masks. */
  lemma DroppedWordsAreIgnored(cs: seq<Clause>, lib: Library)
    requires AllClauses(cs)
    ensures Accepted(Flatten(Strip(cs)), lib) <==> Accepted(Flatten(cs), lib)
    ensures Returned(Flatten(Strip(cs)), false, lib) == Returned(Flatten(cs), false, lib)
    ensures forall b, x :: Describes(b, Strip(cs), x, lib) <==> Describes(b, cs, x, lib)
  {
    hide Accepted, Returned, Describes, Alike, LastGi;
    StripIsAlike(cs);
    StripKeepsLastGi(cs);
    AlikeIsTheSame(cs, Strip(cs), lib);
  }

  // ---------------------------------------------------------------- settings that are lost

  /** The clauses of "legacy-5 6 sgi-5", and any words after them. */
  function OneRate(words: seq<string>): seq<Clause> {
    [Clause("legacy-5", ["6"]), Clause("sgi-5", words)]
  }

  lemma OneRateIs(words: seq<string>)
    requires forall i :: 0 <= i < |words| ==> SectionOf(words[i]).None?
    ensures AllClauses(OneRate(words)) && Starts(Flatten(OneRate(words)))
    ensures Flatten(OneRate(words)) == ["legacy-5", "6", "sgi-5"] + words
    ensures Clauses(Flatten(OneRate(words))) == OneRate(words)
    ensures Strip(OneRate(words)) == OneRate([])
  {
    var cs := OneRate(words);
    assert SectionAt(cs[0]) == Some(Legacy(B5)) && SectionAt(cs[1]) == Some(Sgi(B5)) && SectionOf("6").None?;
    hide SectionOf;
    ClausesOfFlatten(cs);
    assert cs[1..] == [cs[1]];
    FlattenOne(cs[1]);
    assert Flatten(cs) == WordsOf(cs[0]) + WordsOf(cs[1]);
  }

  lemma OneRateIsAccepted(words: seq<string>, lib: Library)
    requires forall i :: 0 <= i < |words| ==> SectionOf(words[i]).None?
    requires lib.rate("6") == Finite(6.0)
    ensures Accepted(Flatten(OneRate(words)), lib)
  {
    OneRateIs(words);
    var cs := OneRate(words);
    assert SectionAt(cs[0]) == Some(Legacy(B5)) && SectionAt(cs[1]) == Some(Sgi(B5));
    hide Flatten, Clauses, SectionOf, LoopOk, AllChunkSections, GuardsOk;
    assert LastGi(cs) == None by {
      assert LastGi(cs[..1]) == LastGi(cs[..1][..0]) == None;
    }
    TwoClausesAreAccepted(cs[0], cs[1], lib);
  }

  lemma WordsAreLost(words: seq<string>, b: BandMask, x: Band, lib: Library)
    requires forall i :: 0 <= i < |words| ==> SectionOf(words[i]).None?
    requires lib.rate("6") == Finite(6.0)
    ensures var args := ["legacy-5", "6", "sgi-5"];
            && Accepted(args + words, lib) && Accepted(args, lib)
            && (Describes(b, Clauses(args + words), x, lib) <==> Describes(b, Clauses(args), x, lib))
  {
    hide SectionOf, Accepted, Clauses, Flatten, Describes, Strip, OneRate, AllClauses, Starts, Returned;
    OneRateIs(words);
    OneRateIs([]);
    OneRateIsAccepted(words, lib);
    OneRateIsAccepted([], lib);
    DroppedWordsAreIgnored(OneRate(words), lib);
    assert ["legacy-5", "6", "sgi-5"] + [] == ["legacy-5", "6", "sgi-5"];
  }

  /** The arguments "legacy-5 6 sgi-5 ampdu on" are accepted, and make the masks of "legacy-5 6 sgi-5". */
  lemma LostSettings(b: BandMask, x: Band, lib: Library)
    requires lib.rate("6") == Finite(6.0)
    ensures Accepted(["legacy-5", "6", "sgi-5", "ampdu", "on"], lib) && Accepted(["legacy-5", "6", "sgi-5"], lib)
    ensures Describes(b, Clauses(["legacy-5", "6", "sgi-5", "ampdu", "on"]), x, lib) <==>
            Describes(b, Clauses(["legacy-5", "6", "sgi-5"]), x, lib)
  {
    assert SectionOf("ampdu").None? && SectionOf("on").None?;
    hide SectionOf, Accepted, Clauses, Describes;
    WordsAreLost(["ampdu", "on"], b, x, lib);
    assert ["legacy-5", "6", "sgi-5"] + ["ampdu", "on"] == ["legacy-5", "6", "sgi-5", "ampdu", "on"];
  }

  /** The clause "he-gi-5", and any words after it. */
  function OneGi(words: seq<string>): seq<Clause> {
    [Clause("he-gi-5", words)]
  }

  lemma OneGiIs(words: seq<string>)
    requires words != [] && forall i :: 0 <= i < |words| ==> SectionOf(words[i]).None?
    ensures AllClauses(OneGi(words)) && Flatten(OneGi(words)) == ["he-gi-5"] + words
    ensures Starts(Flatten(OneGi(words))) && Clauses(Flatten(OneGi(words))) == OneGi(words)
    ensures Strip(OneGi(words)) == OneGi([words[|words| - 1]])
    ensures LastGi(OneGi(words)) == Some(words[|words| - 1])
  {
    var c := Clause("he-gi-5", words);
    assert SectionAt(c) == Some(HeGi(B5));
    hide SectionOf;
    ClausesOfFlatten([c]);
    FlattenOne(c);
  }

  lemma OneGiIsAccepted(words: seq<string>, lib: Library)
    requires words != [] && forall i :: 0 <= i < |words| ==> SectionOf(words[i]).None?
    requires GiOf(words[|words| - 1]).Some?
    ensures Accepted(["he-gi-5"] + words, lib)
  {
    OneGiIs(words);
    var c := Clause("he-gi-5", words);
    assert SectionAt(c) == Some(HeGi(B5));
    hide SectionOf, Flatten, Clauses, LastGi, GiOf, Starts, Strip;
    forall x: Section | Has([c], x)
      ensures x == HeGi(B5)
    {
    }
    hide Has;
    assert LoopOk([c], lib);
  }

  /** The arguments "he-gi-5 ampdu on 3.2" are accepted, and make the masks of "he-gi-5 3.2". */
  lemma OverwrittenSettings(b: BandMask, x: Band, lib: Library)
    ensures Accepted(["he-gi-5", "ampdu", "on", "3.2"], lib) && Accepted(["he-gi-5", "3.2"], lib)
    ensures Describes(b, Clauses(["he-gi-5", "ampdu", "on", "3.2"]), x, lib) <==>
            Describes(b, Clauses(["he-gi-5", "3.2"]), x, lib)
  {
    var words, last := ["ampdu", "on", "3.2"], ["3.2"];
    assert SectionOf("ampdu").None? && SectionOf("on").None? && SectionOf("3.2").None? && GiOf("3.2").Some?;
    hide SectionOf, GiOf, Accepted, Clauses, Describes, Flatten, Strip, OneGi, LastGi, Starts, AllClauses, Returned;
    OneGiIs(words);
    OneGiIs(last);
    OneGiIsAccepted(words, lib);
    OneGiIsAccepted(last, lib);
    DroppedWordsAreIgnored(OneGi(words), lib);
    assert ["he-gi-5"] + words == ["he-gi-5", "ampdu", "on", "3.2"] && ["he-gi-5"] + last == ["he-gi-5", "3.2"];
  }

  /** The argument "sgi-5" makes a mask by itself. */
  lemma OneGuardIsAccepted(lib: Library)
    ensures Accepted(["sgi-5"], lib)
  {
    var c := Clause("sgi-5", []);
    assert SectionAt(c) == Some(Sgi(B5));
    hide SectionOf;
    ClausesOfFlatten([c]);
    FlattenOne(c);
    assert WordsOf(c) == ["sgi-5"];
    hide Flatten, Clauses, Starts;
    forall x: Section | Has([c], x)
      ensures x == Sgi(B5)
    {
    }
    NoLastGi([c]);
    hide Has, LastGi;
    assert LoopOk([c], lib);
  }
}
