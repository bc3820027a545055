/**
 Bitrate masks: the parser loop and the result of `set_bitrates` (wifi/iw/bitrate.c).  What `strtod` and
 `sscanf` read from an argument are parameters.
 */
module Bitrates {
  import opened Bytes
  import opened CNumbers
  import opened Options
  import opened RateChunks

  const EINVAL := 22
  const VHT_ARGC_MAX := 100

  datatype Band = B24 | B5 | B6

  datatype Section = Legacy(b: Band) | Ht(b: Band) | Vht(b: Band) | He(b: Band) | Sgi(b: Band) | Lgi(b: Band)
                   | HeGi(b: Band) | HeLtf(b: Band)

  /** The comparisons at the head of the loop. */
  function SectionOf(t: string): Option<Section> {
    if t == "legacy-2.4" then Some(Legacy(B24))
    else if t == "legacy-5" then Some(Legacy(B5))
    else if t == "ht-mcs-2.4" then Some(Ht(B24))
    else if t == "ht-mcs-5" then Some(Ht(B5))
    else if t == "vht-mcs-2.4" then Some(Vht(B24))
    else if t == "vht-mcs-5" then Some(Vht(B5))
    else if t == "he-mcs-2.4" then Some(He(B24))
    else if t == "he-mcs-5" then Some(He(B5))
    else if t == "he-mcs-6" then Some(He(B6))
    else if t == "sgi-2.4" then Some(Sgi(B24))
    else if t == "sgi-5" then Some(Sgi(B5))
    else if t == "lgi-2.4" then Some(Lgi(B24))
    else if t == "lgi-5" then Some(Lgi(B5))
    else if t == "he-gi-2.4" then Some(HeGi(B24))
    else if t == "he-gi-5" then Some(HeGi(B5))
    else if t == "he-gi-6" then Some(HeGi(B6))
    else if t == "he-ltf-2.4" then Some(HeLtf(B24))
    else if t == "he-ltf-5" then Some(HeLtf(B5))
    else if t == "he-ltf-6" then Some(HeLtf(B6))
    else None
  }

  /** What `strtod` makes of a text: it leaves some of it over, or reads a number or what is none. */
  datatype Double = Unread | NaN | Infinite(minus: bool) | Finite(value: real)

  /** The comparisons with a number, which are false for what is none. */
  predicate Below(d: Double, x: real) {
    (d.Finite? && d.value < x) || (d.Infinite? && d.minus)
  }

  predicate Above(d: Double, x: real) {
    (d.Finite? && d.value > x) || (d.Infinite? && !d.minus)
  }

  /** What the library functions read. */
  datatype Library = Library(rate: string -> Double, sc: Scanner)

  // ---------------------------------------------------------------- clauses

  /** The word that begins a section, and the words up to the next one. */
  datatype Clause = Clause(word: string, words: seq<string>)

  /** How many words at the head begin no section. */
  function Span(args: seq<string>): (n: nat)
    ensures n <= |args|
  {
    if args == [] || SectionOf(args[0]).Some? then 0 else 1 + Span(args[1..])
  }

  predicate Starts(args: seq<string>) {
    args == [] || SectionOf(args[0]).Some?
  }

  function Clauses(args: seq<string>): seq<Clause>
    decreases |args|
  {
    if args == [] || SectionOf(args[0]).None? then []
    else
      var n := Span(args[1..]);
      [Clause(args[0], args[1..1 + n])] + Clauses(args[1 + n..])
  }

  function WordsOf(c: Clause): (w: seq<string>)
    ensures |w| == 1 + |c.words| && w[0] == c.word && w[1..] == c.words
  {
    [c.word] + c.words
  }

  function Flatten(cs: seq<Clause>): seq<string> {
    if cs == [] then [] else WordsOf(cs[0]) + Flatten(cs[1..])
  }

  predicate IsClause(c: Clause) {
    SectionOf(c.word).Some? && forall i :: 0 <= i < |c.words| ==> SectionOf(c.words[i]).None?
  }

  predicate AllClauses(cs: seq<Clause>) {
    forall i :: 0 <= i < |cs| ==> IsClause(cs[i])
  }

  lemma {:induction false} SpanIff(args: seq<string>, n: nat)
    requires n <= |args|
    ensures Span(args) == n <==>
            (forall i :: 0 <= i < n ==> SectionOf(args[i]).None?) && (n == |args| || SectionOf(args[n]).Some?)
  {
    hide SectionOf;
    if n > 0 {
      var tail := args[1..];
      SpanIff(tail, n - 1);
      assert forall i :: 0 <= i < |tail| ==> tail[i] == args[i + 1];
      assert (forall i :: 0 <= i < n ==> SectionOf(args[i]).None?) <==>
             SectionOf(args[0]).None? && forall i :: 0 <= i < n - 1 ==> SectionOf(tail[i]).None? by {
        assert forall i :: 0 < i < |args| ==> args[i] == tail[i - 1];
      }
    }
  }

  lemma SpanAtClause(c: Clause, rest: seq<string>)
    requires IsClause(c) && Starts(rest)
    ensures var args := WordsOf(c) + rest;
            && args[0] == c.word && Span(args[1..]) == |c.words|
            && args[1..1 + |c.words|] == c.words && args[1 + |c.words|..] == rest
  {
    hide SectionOf;
    var args := WordsOf(c) + rest;
    assert args[1..] == c.words + rest;
    SpanIff(args[1..], |c.words|);
  }

  /** Cutting any clauses' arguments gives the clauses back. */
  lemma {:induction false} ClausesOfFlatten(cs: seq<Clause>)
    requires AllClauses(cs)
    ensures Clauses(Flatten(cs)) == cs && Starts(Flatten(cs))
  {
    hide SectionOf, WordsOf;
    if cs != [] {
      assert IsClause(cs[0]);
      ClausesOfFlatten(cs[1..]);
      SpanAtClause(cs[0], Flatten(cs[1..]));
      assert [cs[0]] + cs[1..] == cs;
    }
  }

  lemma ClauseAtHead(args: seq<string>)
    requires args != [] && SectionOf(args[0]).Some?
    ensures var n := Span(args[1..]);
            var c, rest := Clause(args[0], args[1..1 + n]), args[1 + n..];
            IsClause(c) && Starts(rest) && args == WordsOf(c) + rest
  {
    hide SectionOf;
    var tail := args[1..];
    var n := Span(tail);
    SpanIff(tail, n);
    assert forall i :: 0 <= i < n ==> args[1..1 + n][i] == tail[i];
    assert n < |tail| ==> args[1 + n..][0] == tail[n];
  }

  /** Any arguments that start with a section are the arguments of their clauses. */
  lemma {:induction false} FlattenOfClauses(args: seq<string>)
    requires Starts(args)
    ensures Flatten(Clauses(args)) == args && AllClauses(Clauses(args))
    decreases |args|
  {
    hide SectionOf, WordsOf, IsClause;
    if args != [] {
      ClauseAtHead(args);
      var n := Span(args[1..]);
      var c, rest := Clause(args[0], args[1..1 + n]), args[1 + n..];
      FlattenOfClauses(rest);
      assert ([c] + Clauses(rest))[1..] == Clauses(rest);
    }
  }

  // ---------------------------------------------------------------- what clauses mean

  function SectionAt(c: Clause): Option<Section> {
    SectionOf(c.word)
  }

  ghost predicate Has(cs: seq<Clause>, s: Section) {
    exists c :: c in cs && SectionAt(c) == Some(s)
  }

  /** The words given to a section. */
  function WordsIn(cs: seq<Clause>, s: Section): seq<string> {
    if cs == [] then []
    else
      var n := |cs| - 1;
      WordsIn(cs[..n], s) + if SectionAt(cs[n]) == Some(s) then cs[n].words else []
  }

  /** A section that may occur only once. */
  predicate IsRate(s: Section) {
    s.Legacy? || s.Ht? || s.Vht? || s.He?
  }

  /** Twice the rate has a value as a byte; the conversion of any other number, or of what is none, is undefined. */
  predicate Convertible(d: Double) {
    d.Finite? && 0.0 <= d.value < 128.0
  }

  /** A legacy rate is stored as a multiple of half a megabit, in a byte. */
  function ByteOf(s: Section, w: string, lib: Library): byte {
    if s.Legacy? then (if Convertible(lib.rate(w)) then (2.0 * lib.rate(w).value).Floor as byte else 0)
    else (Strtol(w).0 % 256) as byte
  }

  function BytesOf(s: Section, words: seq<string>, lib: Library): (r: seq<byte>)
    ensures |r| == |words|
  {
    seq(|words|, i requires 0 <= i < |words| => ByteOf(s, words[i], lib))
  }

  /** The `int` that the LTF argument gives. */
  function LtfOf(w: string): int {
    ToInt(Strtol(w).0 % TWO32)
  }

  /** A word that its section accepts, as it stands at place `i` of the list. */
  predicate WordOk(s: Section, w: string, i: nat, lib: Library) {
    match s
    case Legacy(_) => !lib.rate(w).Unread? && !Below(lib.rate(w), 1.0) && !Above(lib.rate(w), 510.0)
    case Ht(_) => Strtol(w).1 == |w| && 0 <= Strtol(w).0 <= 255
    case Vht(_) => i < VHT_ARGC_MAX
    case He(_) => i < VHT_ARGC_MAX
    case HeLtf(_) => Strtol(w).1 == |w| && 0 <= LtfOf(w) <= 4
    case _ => true
  }

  ghost predicate ClauseOk(c: Clause, lib: Library) {
    forall i :: 0 <= i < |c.words| && SectionAt(c).Some? ==> WordOk(SectionAt(c).value, c.words[i], i, lib)
  }

  /** The conditions checked in the loop. */
  ghost predicate LoopOk(cs: seq<Clause>, lib: Library) {
    && (forall i :: 0 <= i < |cs| ==> ClauseOk(cs[i], lib))
    && (forall i, j :: 0 <= i < j < |cs| && SectionAt(cs[i]).Some? && IsRate(SectionAt(cs[i]).value) ==>
          SectionAt(cs[i]) != SectionAt(cs[j]))
  }

  /** The arrays that hold legacy and HT rates. */
  const LEGACY_MAX := 32
  const HT_MAX := 77

  /** The words of a clause can be stored: they fit its array, and legacy rates have values as bytes. */
  predicate ClauseStorable(c: Clause, lib: Library) {
    SectionAt(c).Some? ==>
      && (SectionAt(c).value.Legacy? ==>
            |c.words| <= LEGACY_MAX && forall i :: 0 <= i < |c.words| ==> Convertible(lib.rate(c.words[i])))
      && (SectionAt(c).value.Ht? ==> |c.words| <= HT_MAX)
  }

  predicate Storable(cs: seq<Clause>, lib: Library) {
    forall i :: 0 <= i < |cs| ==> ClauseStorable(cs[i], lib)
  }

  /** The loop stores well: up to the first argument it refuses, the words can be stored. */
  ghost predicate StoresWell(args: seq<string>, lib: Library) {
    forall k :: 0 <= k <= |args| && Starts(args[..k]) && LoopOk(Clauses(args[..k]), lib) ==>
      Storable(Clauses(args[..k]), lib)
  }

  /** The last word after any of the guard interval sections, whatever its band. */
  function LastGi(cs: seq<Clause>): Option<string> {
    if cs == [] then None
    else
      var n := |cs| - 1;
      if SectionAt(cs[n]).Some? && SectionAt(cs[n]).value.HeGi? && cs[n].words != []
      then Some(cs[n].words[|cs[n].words| - 1])
      else LastGi(cs[..n])
  }

  /** The value of the last word after any of the LTF sections, whatever its band. */
  function LastLtf(cs: seq<Clause>): int {
    if cs == [] then 0
    else
      var n := |cs| - 1;
      if SectionAt(cs[n]).Some? && SectionAt(cs[n]).value.HeLtf? && cs[n].words != []
      then LtfOf(cs[n].words[|cs[n].words| - 1]) / 2
      else LastLtf(cs[..n])
  }

  /** `parse_he_gi` */
  function GiOf(t: string): Option<nat> {
    if t == "0.8" then Some(0) else if t == "1.6" then Some(1) else if t == "3.2" then Some(2) else None
  }

  ghost predicate GuardsOk(cs: seq<Clause>) {
    && !(Has(cs, Sgi(B5)) && Has(cs, Lgi(B5))) && !(Has(cs, Sgi(B24)) && Has(cs, Lgi(B24)))
    && (LastGi(cs).Some? ==> GiOf(LastGi(cs).value).Some?)
  }

  // ---------------------------------------------------------------- one more argument

  function Grow(cs: seq<Clause>, w: string): seq<Clause>
    requires cs != []
  {
    var n := |cs| - 1;
    cs[..n] + [Clause(cs[n].word, cs[n].words + [w])]
  }

  lemma {:induction false} FlattenAppend(a: seq<Clause>, b: seq<Clause>)
    ensures Flatten(a + b) == Flatten(a) + Flatten(b)
  {
    hide WordsOf;
    if a == [] {
      assert a + b == b;
    } else {
      FlattenAppend(a[1..], b);
      assert (a + b)[0] == a[0] && (a + b)[1..] == a[1..] + b;
      var x, y, z := WordsOf(a[0]), Flatten(a[1..]), Flatten(b);
      assert x + (y + z) == (x + y) + z;
    }
  }

  lemma FlattenOne(c: Clause)
    ensures Flatten([c]) == WordsOf(c)
  {
    assert [c][1..] == [];
  }

  lemma FlattenGrow(cs: seq<Clause>, w: string)
    requires cs != []
    ensures Flatten(Grow(cs, w)) == Flatten(cs) + [w]
  {
    hide Flatten;
    var n := |cs| - 1;
    var c := Clause(cs[n].word, cs[n].words + [w]);
    FlattenAppend(cs[..n], [cs[n]]);
    FlattenAppend(cs[..n], [c]);
    FlattenOne(cs[n]);
    FlattenOne(c);
    assert cs == cs[..n] + [cs[n]];
    assert WordsOf(c) == WordsOf(cs[n]) + [w];
  }

  /** One more argument begins a clause or belongs to the last one. */
  lemma ClausesSnoc(args: seq<string>, w: string)
    requires Starts(args)
    ensures SectionOf(w).Some? ==> Clauses(args + [w]) == Clauses(args) + [Clause(w, [])]
    ensures SectionOf(w).None? && args != [] ==> Clauses(args) != [] && Clauses(args + [w]) == Grow(Clauses(args), w)
  {
    hide SectionOf, WordsOf;
    FlattenOfClauses(args);
    var cs := Clauses(args);
    hide Clauses;
    if SectionOf(w).Some? {
      var c := Clause(w, []);
      FlattenAppend(cs, [c]);
      FlattenOne(c);
      assert WordsOf(c) == [w] by {
        assert WordsOf(c)[1..] == [];
      }
      ClausesOfFlatten(cs + [c]);
    } else if args != [] {
      assert cs != [];
      FlattenGrow(cs, w);
      hide Flatten;
      ClausesOfFlatten(Grow(cs, w));
    }
  }

  lemma HasOneMore(cs: seq<Clause>, c: Clause, s: Section)
    ensures Has(cs + [c], s) <==> Has(cs, s) || SectionAt(c) == Some(s)
  {
    assert c in cs + [c];
    if Has(cs, s) {
      var d :| d in cs && SectionAt(d) == Some(s);
      assert d in cs + [c];
    }
  }

  lemma OneMoreClause(cs: seq<Clause>, w: string)
    requires SectionOf(w).Some?
    ensures var ds, s := cs + [Clause(w, [])], SectionOf(w).value;
            && (forall t: Section :: Has(ds, t) <==> Has(cs, t) || s == t)
            && (forall t: Section :: WordsIn(ds, t) == WordsIn(cs, t))
            && LastGi(ds) == LastGi(cs) && LastLtf(ds) == LastLtf(cs)
  {
    hide SectionOf, Has, LtfOf;
    var c := Clause(w, []);
    assert (cs + [c])[..|cs|] == cs;
    forall t: Section
      ensures Has(cs + [c], t) <==> Has(cs, t) || SectionOf(w).value == t
      ensures WordsIn(cs + [c], t) == WordsIn(cs, t)
    {
      HasOneMore(cs, c, t);
      assert WordsIn(cs, t) + [] == WordsIn(cs, t);
    }
  }

  lemma OneMoreWord(cs: seq<Clause>, w: string)
    requires cs != [] && SectionAt(cs[|cs| - 1]).Some?
    ensures var ds, s := Grow(cs, w), SectionAt(cs[|cs| - 1]).value;
            && (forall t: Section :: Has(ds, t) <==> Has(cs, t))
            && (forall t: Section :: WordsIn(ds, t) == WordsIn(cs, t) + if s == t then [w] else [])
            && LastGi(ds) == (if s.HeGi? then Some(w) else LastGi(cs))
            && LastLtf(ds) == (if s.HeLtf? then LtfOf(w) / 2 else LastLtf(cs))
  {
    hide SectionOf, Has, LtfOf, WordsIn, LastGi, LastLtf;
    forall t: Section
      ensures Has(Grow(cs, w), t) <==> Has(cs, t)
      ensures WordsIn(Grow(cs, w), t) == WordsIn(cs, t) + if SectionAt(cs[|cs| - 1]).value == t then [w] else []
    {
      OneMoreWordIn(cs, w, t);
    }
    LastsOfGrow(cs, w);
  }

  lemma OneMoreWordIn(cs: seq<Clause>, w: string, t: Section)
    requires cs != [] && SectionAt(cs[|cs| - 1]).Some?
    ensures Has(Grow(cs, w), t) <==> Has(cs, t)
    ensures WordsIn(Grow(cs, w), t) == WordsIn(cs, t) + if SectionAt(cs[|cs| - 1]).value == t then [w] else []
  {
    hide SectionOf, Has;
    var n := |cs| - 1;
    var c := Clause(cs[n].word, cs[n].words + [w]);
    assert cs == cs[..n] + [cs[n]] && Grow(cs, w)[..n] == cs[..n];
    HasOneMore(cs[..n], c, t);
    HasOneMore(cs[..n], cs[n], t);
    assert WordsIn(cs[..n], t) + (cs[n].words + [w]) == (WordsIn(cs[..n], t) + cs[n].words) + [w];
  }

  lemma LastsOfGrow(cs: seq<Clause>, w: string)
    requires cs != [] && SectionAt(cs[|cs| - 1]).Some?
    ensures var ds, s := Grow(cs, w), SectionAt(cs[|cs| - 1]).value;
            && LastGi(ds) == (if s.HeGi? then Some(w) else LastGi(cs))
            && LastLtf(ds) == (if s.HeLtf? then LtfOf(w) / 2 else LastLtf(cs))
  {
    hide SectionOf, LtfOf;
    var n := |cs| - 1;
    assert Grow(cs, w)[..n] == cs[..n];
  }

  /** What a new section adds to the conditions of the loop. */
  lemma LoopOkClause(cs: seq<Clause>, w: string, lib: Library)
    requires SectionOf(w).Some?
    ensures LoopOk(cs + [Clause(w, [])], lib) <==>
            LoopOk(cs, lib) && (IsRate(SectionOf(w).value) ==> !Has(cs, SectionOf(w).value))
  {
    hide SectionOf, WordOk;
    var ds := cs + [Clause(w, [])];
    var n := |cs|;
    assert forall i :: 0 <= i < n ==> ds[i] == cs[i];
    assert ClauseOk(ds[n], lib);
  }

  /** What one more word adds to the conditions of the loop. */
  lemma LoopOkWord(cs: seq<Clause>, w: string, lib: Library)
    requires cs != [] && SectionAt(cs[|cs| - 1]).Some?
    ensures var c := cs[|cs| - 1];
            LoopOk(Grow(cs, w), lib) <==> LoopOk(cs, lib) && WordOk(SectionAt(c).value, w, |c.words|, lib)
  {
    hide SectionOf, WordOk;
    var ds, n := Grow(cs, w), |cs| - 1;
    assert forall i :: 0 <= i < n ==> ds[i] == cs[i];
    assert forall i :: 0 <= i <= n ==> SectionAt(ds[i]) == SectionAt(cs[i]);
    assert forall i :: 0 <= i < |cs[n].words| ==> ds[n].words[i] == cs[n].words[i];
    assert ds[n].words[|cs[n].words|] == w;
    assert ClauseOk(ds[n], lib) <==> ClauseOk(cs[n], lib) && WordOk(SectionAt(cs[n]).value, w, |cs[n].words|, lib);
  }

  /** Conditions that fail for the first arguments fail for all of them. */
  lemma {:induction false} LoopOkPrefix(args: seq<string>, k: nat, lib: Library)
    requires k <= |args| && Starts(args) && LoopOk(Clauses(args), lib)
    ensures LoopOk(Clauses(args[..k]), lib)
    decreases |args|
  {
    hide SectionOf, LoopOk, Clauses;
    if k == |args| {
      assert args[..k] == args;
    } else {
      var n := |args| - 1;
      var p, w := args[..n], args[n];
      assert args == p + [w] && Starts(p) && p[..k] == args[..k];
      ClausesSnoc(p, w);
      if SectionOf(w).Some? {
        LoopOkClause(Clauses(p), w, lib);
      } else {
        assert p != [];
        FlattenOfClauses(p);
        assert IsClause(Clauses(p)[|Clauses(p)| - 1]);
        LoopOkWord(Clauses(p), w, lib);
      }
      LoopOkPrefix(p, k, lib);
    }
  }

  lemma StorableBefore(cs: seq<Clause>, w: string, lib: Library)
    ensures SectionOf(w).Some? && Storable(cs + [Clause(w, [])], lib) ==> Storable(cs, lib)
    ensures cs != [] && Storable(Grow(cs, w), lib) ==> Storable(cs, lib)
  {
    hide SectionOf, Convertible;
    assert forall i :: 0 <= i < |cs| ==> (cs + [Clause(w, [])])[i] == cs[i];
    if cs != [] {
      var n := |cs| - 1;
      var c := Grow(cs, w)[n];
      assert forall i :: 0 <= i < n ==> Grow(cs, w)[i] == cs[i];
      assert SectionAt(c) == SectionAt(cs[n]) && |c.words| == |cs[n].words| + 1;
      assert forall i :: 0 <= i < |cs[n].words| ==> c.words[i] == cs[n].words[i];
      assert ClauseStorable(c, lib) ==> ClauseStorable(cs[n], lib);
    }
  }

  lemma {:induction false} StorablePrefix(args: seq<string>, k: nat, lib: Library)
    requires k <= |args| && Starts(args) && Storable(Clauses(args), lib)
    ensures Storable(Clauses(args[..k]), lib)
    decreases |args|
  {
    hide SectionOf, Clauses, Storable;
    if k == |args| {
      assert args[..k] == args;
    } else {
      var n := |args| - 1;
      var p, w := args[..n], args[n];
      assert args == p + [w] && Starts(p) && p[..k] == args[..k];
      ClausesSnoc(p, w);
      StorableBefore(Clauses(p), w, lib);
      if SectionOf(w).None? {
        assert p != [];
      }
      StorablePrefix(p, k, lib);
    }
  }

  /**
   Where the loop accepts all arguments it stores well if and only if no legacy list has more than 32 words
   and no HT list more than 77, and every legacy rate is a number below 128.
   */
  lemma WhenTheLoopStoresWell(args: seq<string>, lib: Library)
    requires Starts(args) && LoopOk(Clauses(args), lib)
    ensures StoresWell(args, lib) <==> Storable(Clauses(args), lib)
  {
    hide SectionOf, Clauses, Storable, LoopOk;
    assert args[..|args|] == args;
    if Storable(Clauses(args), lib) {
      forall k | 0 <= k <= |args|
        ensures Storable(Clauses(args[..k]), lib)
      {
        StorablePrefix(args, k, lib);
      }
    }
  }

  lemma {:induction false} NoWords(cs: seq<Clause>, s: Section)
    requires !Has(cs, s)
    ensures WordsIn(cs, s) == []
  {
    hide SectionAt;
    if cs != [] {
      var n := |cs| - 1;
      assert cs[n] in cs && forall c :: c in cs[..n] ==> c in cs;
      NoWords(cs[..n], s);
    }
  }

  /** A section that may occur once has the words of its one clause. */
  lemma WordsOfTheLast(cs: seq<Clause>, lib: Library)
    requires cs != [] && LoopOk(cs, lib) && SectionAt(cs[|cs| - 1]).Some? && IsRate(SectionAt(cs[|cs| - 1]).value)
    ensures WordsIn(cs, SectionAt(cs[|cs| - 1]).value) == cs[|cs| - 1].words
  {
    hide SectionOf, ClauseOk;
    var n := |cs| - 1;
    var s := SectionAt(cs[n]).value;
    forall c | c in cs[..n]
      ensures SectionAt(c) != Some(s)
    {
      var i :| 0 <= i < n && cs[i] == c;
    }
    NoWords(cs[..n], s);
    assert [] + cs[n].words == cs[n].words;
  }

  /** So has any of its clauses, wherever it stands: it is the only one. */
  lemma {:induction false} WordsOfTheOnly(cs: seq<Clause>, i: nat, lib: Library)
    requires LoopOk(cs, lib) && i < |cs| && SectionAt(cs[i]).Some? && IsRate(SectionAt(cs[i]).value)
    ensures WordsIn(cs, SectionAt(cs[i]).value) == cs[i].words && Has(cs, SectionAt(cs[i]).value)
  {
    hide SectionOf, ClauseOk, IsRate;
    var n := |cs| - 1;
    assert cs[i] in cs;
    if i == n {
      WordsOfTheLast(cs, lib);
    } else {
      assert forall k :: 0 <= k < n ==> cs[..n][k] == cs[k];
      WordsOfTheOnly(cs[..n], i, lib);
      assert SectionAt(cs[i]) != SectionAt(cs[n]);
    }
  }

  // ---------------------------------------------------------------- words and values, one by one

  /** The words that begin sections. */
  lemma SectionWords()
    ensures SectionOf("legacy-2.4") == Some(Legacy(B24)) && SectionOf("legacy-5") == Some(Legacy(B5))
    ensures SectionOf("ht-mcs-2.4") == Some(Ht(B24)) && SectionOf("ht-mcs-5") == Some(Ht(B5))
    ensures SectionOf("vht-mcs-2.4") == Some(Vht(B24)) && SectionOf("vht-mcs-5") == Some(Vht(B5))
    ensures SectionOf("he-mcs-2.4") == Some(He(B24)) && SectionOf("he-mcs-5") == Some(He(B5))
    ensures SectionOf("he-mcs-6") == Some(He(B6))
    ensures SectionOf("sgi-2.4") == Some(Sgi(B24)) && SectionOf("sgi-5") == Some(Sgi(B5))
    ensures SectionOf("lgi-2.4") == Some(Lgi(B24)) && SectionOf("lgi-5") == Some(Lgi(B5))
  {
  }

  lemma GuardSectionWords()
    ensures SectionOf("he-gi-2.4") == Some(HeGi(B24)) && SectionOf("he-gi-5") == Some(HeGi(B5))
    ensures SectionOf("he-gi-6") == Some(HeGi(B6))
    ensures SectionOf("he-ltf-2.4") == Some(HeLtf(B24)) && SectionOf("he-ltf-5") == Some(HeLtf(B5))
    ensures SectionOf("he-ltf-6") == Some(HeLtf(B6))
  {
  }

  /** The guard intervals are 0, 1 and 2, and there are no others. */
  lemma GuardIntervals(t: string)
    ensures GiOf("0.8") == Some(0) && GiOf("1.6") == Some(1) && GiOf("3.2") == Some(2)
    ensures GiOf(t).Some? ==> t == "0.8" || t == "1.6" || t == "3.2"
  {
  }

  /** Which rates a legacy section takes, what an HT and an LTF section take, and how many words the others. */
  lemma WhichWordsAreTaken(b: Band, w: string, i: nat, lib: Library)
    ensures lib.rate(w).Finite? ==> (WordOk(Legacy(b), w, i, lib) <==> 1.0 <= lib.rate(w).value && lib.rate(w).value <= 510.0)
    ensures lib.rate(w).NaN? ==> WordOk(Legacy(b), w, i, lib)
    ensures lib.rate(w).Unread? || lib.rate(w).Infinite? ==> !WordOk(Legacy(b), w, i, lib)
    ensures WordOk(Ht(b), w, i, lib) <==> Strtol(w).1 == |w| && 0 <= Strtol(w).0 && Strtol(w).0 < 256
    ensures (WordOk(Vht(b), w, i, lib) <==> i < 100) && (WordOk(He(b), w, i, lib) <==> i < 100)
    ensures Strtol(w).1 == |w| && -0x8000_0000 <= Strtol(w).0 < 0x8000_0000 ==>
              (WordOk(HeLtf(b), w, i, lib) <==> Strtol(w).0 in {0, 1, 2, 3, 4})
  {
    hide Strtol;
  }

  /** There are no other words that begin sections. */
  lemma OtherWords(t: string)
    ensures SectionOf(t).Some? ==>
              || t in {"legacy-2.4", "legacy-5", "ht-mcs-2.4", "ht-mcs-5", "vht-mcs-2.4", "vht-mcs-5"}
              || t in {"he-mcs-2.4", "he-mcs-5", "he-mcs-6", "sgi-2.4", "sgi-5", "lgi-2.4", "lgi-5"}
              || t in {"he-gi-2.4", "he-gi-5", "he-gi-6", "he-ltf-2.4", "he-ltf-5", "he-ltf-6"}
  {
  }

  /** LTF sizes 1, 2 and 4 are sent as 0, 1 and 2. */
  lemma LtfSizes(cs: seq<Clause>, c: Clause, b: Band)
    requires SectionAt(c) == Some(HeLtf(b)) && c.words != []
    ensures var w := c.words[|c.words| - 1];
            && (Strtol(w).0 == 1 ==> LastLtf(cs + [c]) == 0) && (Strtol(w).0 == 2 ==> LastLtf(cs + [c]) == 1)
            && (Strtol(w).0 == 4 ==> LastLtf(cs + [c]) == 2)
  {
    hide Strtol, SectionOf;
    assert (cs + [c])[|cs|] == c;
  }

  /** The last word given decides; sections of other kinds, and those with no words, change nothing. */
  lemma LastGuards(cs: seq<Clause>, c: Clause, b: Band)
    ensures SectionAt(c) == Some(HeGi(b)) && c.words != [] ==> LastGi(cs + [c]) == Some(c.words[|c.words| - 1])
    ensures SectionAt(c).Some? && !SectionAt(c).value.HeGi? ==> LastGi(cs + [c]) == LastGi(cs)
    ensures SectionAt(c).Some? && !SectionAt(c).value.HeLtf? ==> LastLtf(cs + [c]) == LastLtf(cs)
    ensures c.words == [] ==> LastGi(cs + [c]) == LastGi(cs) && LastLtf(cs + [c]) == LastLtf(cs)
  {
    hide Strtol, SectionOf;
    assert (cs + [c])[|cs|] == c && (cs + [c])[..|cs|] == cs;
  }

  /** How many words can be stored: 32 legacy rates, each below 128 or nothing at all, and 77 HT indices. */
  lemma WhatCanBeStored(c: Clause, b: Band, lib: Library)
    ensures SectionAt(c) == Some(Legacy(b)) ==>
              (ClauseStorable(c, lib) <==>
                 |c.words| < 33 && forall i :: 0 <= i < |c.words| ==>
                   var d := lib.rate(c.words[i]); d.Finite? && 0.0 <= d.value && d.value < 128.0)
    ensures SectionAt(c) == Some(Ht(b)) ==> (ClauseStorable(c, lib) <==> |c.words| < 78)
    ensures SectionAt(c).Some? && !SectionAt(c).value.Legacy? && !SectionAt(c).value.Ht? ==> ClauseStorable(c, lib)
  {
  }

  predicate Begins(cs: seq<Clause>, word: string) {
    exists i :: 0 <= i < |cs| && cs[i].word == word
  }

  /** Guards are refused that are both short and long in a band, and those after a guard interval that is none. */
  lemma WhichGuardsAreRefused(cs: seq<Clause>)
    ensures GuardsOk(cs) <==>
            && !(Begins(cs, "sgi-5") && Begins(cs, "lgi-5")) && !(Begins(cs, "sgi-2.4") && Begins(cs, "lgi-2.4"))
            && (LastGi(cs).Some? ==> LastGi(cs).value in {"0.8", "1.6", "3.2"})
  {
    hide LastGi;
    SectionWords();
    GuardWord(cs, "sgi-5", Sgi(B5));
    GuardWord(cs, "lgi-5", Lgi(B5));
    GuardWord(cs, "sgi-2.4", Sgi(B24));
    GuardWord(cs, "lgi-2.4", Lgi(B24));
  }

  lemma GuardWord(cs: seq<Clause>, word: string, s: Section)
    requires (s.Sgi? || s.Lgi?) && SectionOf(word) == Some(s)
    ensures Has(cs, s) <==> Begins(cs, word)
  {
    forall c | c in cs
      ensures SectionAt(c) == Some(s) <==> c.word == word
    {
    }
    hide SectionOf;
  }
}
