/** `set_bitrates` (wifi/iw/bitrate.c), proved to follow the clauses of module Bitrates. */
module BitratesParser {
  import opened Bitrates
  import opened Bytes
  import opened CNumbers
  import opened Options
  import opened RateChunks

  // ---------------------------------------------------------------- the variables of the loop

  /** The lists are indexed by section where the source has one array for each. */
  datatype Memory = Memory(have: set<Section>, bytes: map<Section, seq<byte>>, args: map<Section, seq<string>>,
                           heGi: Option<string>, heLtf: int, cur: Option<Section>)

  const START := Memory({}, map[], map[], None, 0, None)

  function Get<T>(m: map<Section, seq<T>>, s: Section): seq<T> {
    if s in m then m[s] else []
  }

  ghost predicate Tracks(m: Memory, cs: seq<Clause>, lib: Library) {
    && (forall s: Section :: s in m.have <==> Has(cs, s))
    && (forall s: Section :: s.Legacy? || s.Ht? ==> Get(m.bytes, s) == BytesOf(s, WordsIn(cs, s), lib))
    && (forall s: Section :: s.Vht? || s.He? ==> Get(m.args, s) == WordsIn(cs, s))
    && m.heGi == LastGi(cs) && m.heLtf == LastLtf(cs)
    && m.cur == if cs == [] then None else SectionAt(cs[|cs| - 1])
  }

  lemma TracksNothing(lib: Library)
    ensures Tracks(START, [], lib) && LoopOk([], lib)
  {
  }

  lemma TracksClause(m: Memory, cs: seq<Clause>, w: string, lib: Library)
    requires Tracks(m, cs, lib) && SectionOf(w).Some?
    ensures var s := SectionOf(w).value;
            Tracks(m.(have := m.have + {s}, cur := Some(s)), cs + [Clause(w, [])], lib)
  {
    hide SectionOf, Has, WordsIn, LastGi, LastLtf, BytesOf;
    OneMoreClause(cs, w);
  }

  /** What an accepted word is stored as. */
  function Store(m: Memory, s: Section, w: string, lib: Library): Memory {
    match s
    case Legacy(_) => m.(bytes := m.bytes[s := Get(m.bytes, s) + [ByteOf(s, w, lib)]])
    case Ht(_) => m.(bytes := m.bytes[s := Get(m.bytes, s) + [ByteOf(s, w, lib)]])
    case Vht(_) => m.(args := m.args[s := Get(m.args, s) + [w]])
    case He(_) => m.(args := m.args[s := Get(m.args, s) + [w]])
    case HeGi(_) => m.(heGi := Some(w))
    case HeLtf(_) => m.(heLtf := LtfOf(w) / 2)
    case _ => m
  }

  lemma TracksWord(m: Memory, cs: seq<Clause>, w: string, lib: Library)
    requires Tracks(m, cs, lib) && m.cur.Some?
    ensures Tracks(Store(m, m.cur.value, w, lib), Grow(cs, w), lib)
  {
    hide SectionOf, Has, WordsIn, LastGi, LastLtf, ByteOf, LtfOf;
    var s := m.cur.value;
    OneMoreWord(cs, w);
    assert BytesOf(s, WordsIn(cs, s) + [w], lib) == BytesOf(s, WordsIn(cs, s), lib) + [ByteOf(s, w, lib)];
    assert forall t: Section :: t != s ==> WordsIn(cs, t) + [] == WordsIn(cs, t);
  }

  // ---------------------------------------------------------------- the loop

  datatype LoopEnd = Finished | NoSection | Rejected

  /** One word in the current section: the switch at the end of the loop body. */
  method TakeWord(m0: Memory, w: string, ghost cs: seq<Clause>, lib: Library) returns (ok: bool, m: Memory)
    requires Tracks(m0, cs, lib) && LoopOk(cs, lib) && m0.cur.Some?
    requires WordOk(m0.cur.value, w, |cs[|cs| - 1].words|, lib) ==> Storable(Grow(cs, w), lib)
    ensures ok <==> WordOk(m0.cur.value, w, |cs[|cs| - 1].words|, lib)
    ensures ok ==> m == Store(m0, m0.cur.value, w, lib)
  {
    hide LoopOk, Storable, Strtol, Has, WordsIn, LastGi, LastLtf, BytesOf, SectionOf;
    m := m0;
    var s := m.cur.value;
    if IsRate(s) {
      WordsOfTheLast(cs, lib);
    }
    RoomForOne(cs, w, lib);
    match s {
      case Legacy(_) =>
        var tmpd := lib.rate(w);
        if tmpd.Unread? {
          return false, m;
        }
        if Below(tmpd, 1.0) || Above(tmpd, 255.0 * 2.0) {
          return false, m;
        }
        assert |Get(m.bytes, s)| < LEGACY_MAX && Convertible(tmpd);
        m := m.(bytes := m.bytes[s := Get(m.bytes, s) + [(tmpd.value * 2.0).Floor as byte]]);
      case Ht(_) =>
        var (tmpl, end) := Strtol(w);
        if end != |w| {
          return false, m;
        }
        if tmpl < 0 || tmpl > 255 {
          return false, m;
        }
        assert |Get(m.bytes, s)| < HT_MAX;
        m := m.(bytes := m.bytes[s := Get(m.bytes, s) + [tmpl as byte]]);
      case Vht(_) =>
        if |Get(m.args, s)| >= VHT_ARGC_MAX {
          return false, m;
        }
        m := m.(args := m.args[s := Get(m.args, s) + [w]]);
      case He(_) =>
        if |Get(m.args, s)| >= VHT_ARGC_MAX {
          return false, m;
        }
        m := m.(args := m.args[s := Get(m.args, s) + [w]]);
      case HeGi(_) =>
        m := m.(heGi := Some(w));
      case HeLtf(_) =>
        var (v, end) := Strtol(w);
        var ltf := ToInt(v % TWO32);
        if end != |w| {
          return false, m;
        }
        if ltf < 0 || ltf > 4 {
          return false, m;
        }
        m := m.(heLtf := ltf / 2);
      case _ =>
    }
    return true, m;
  }

  lemma RoomForOne(cs: seq<Clause>, w: string, lib: Library)
    requires cs != [] && SectionAt(cs[|cs| - 1]).Some?
    ensures var c := cs[|cs| - 1];
            Storable(Grow(cs, w), lib) ==>
              && (SectionAt(c).value.Legacy? ==> |c.words| < LEGACY_MAX && Convertible(lib.rate(w)))
              && (SectionAt(c).value.Ht? ==> |c.words| < HT_MAX)
  {
    hide SectionOf, Convertible;
    var c := Grow(cs, w)[|cs| - 1];
    assert SectionAt(c) == SectionAt(cs[|cs| - 1]) && c.words[|c.words| - 1] == w;
    assert Storable(Grow(cs, w), lib) ==> ClauseStorable(c, lib);
  }

  /** The loop of `set_bitrates`. */
  method ReadSections(args: seq<string>, lib: Library) returns (end: LoopEnd, m: Memory, i: nat)
    requires StoresWell(args, lib)
    ensures end == if !Starts(args) then NoSection else if LoopOk(Clauses(args), lib) then Finished else Rejected
    ensures end.Finished? ==> i == |args| && Tracks(m, Clauses(args), lib)
    ensures end.NoSection? ==> i == 0 && m == START
  {
    hide LoopOk, Storable, Tracks, SectionOf, Clauses, Store, WordOk, Grow;
    m, i := START, 0;
    TracksNothing(lib);
    NoClauses();
    while i < |args|
      invariant 0 <= i <= |args| && Starts(args[..i]) && LoopOk(Clauses(args[..i]), lib)
      invariant Tracks(m, Clauses(args[..i]), lib) && (i > 0 ==> m.cur.Some?) && (i == 0 ==> m == START)
    {
      var w := args[i];
      ghost var cs := Clauses(args[..i]);
      assert args[..i + 1] == args[..i] + [w];
      assert i > 0 ==> args[..i][0] == args[0];
      ClausesSnoc(args[..i], w);
      if SectionOf(w).Some? {
        var s := SectionOf(w).value;
        HaveIs(m, cs, s, lib);
        LoopOkClause(cs, w, lib);
        TracksClause(m, cs, w, lib);
        if IsRate(s) && s in m.have {
          if Starts(args) && LoopOk(Clauses(args), lib) {
            LoopOkPrefix(args, i + 1, lib);
          }
          return Rejected, m, i;
        }
        m := m.(have := m.have + {s}, cur := Some(s));
      } else if m.cur.None? {
        return NoSection, m, i;
      } else {
        LastIsCur(m, cs, lib);
        LoopOkWord(cs, w, lib);
        TracksWord(m, cs, w, lib);
        StoreKeepsCur(m, w, lib);
        var ok;
        ghost var before := m;
        ok, m := TakeWord(m, w, cs, lib);
        if !ok {
          if Starts(args) && LoopOk(Clauses(args), lib) {
            LoopOkPrefix(args, i + 1, lib);
          }
          return Rejected, m, i;
        }
      }
      i := i + 1;
    }
    assert args[..i] == args;
    return Finished, m, i;
  }

  lemma NoClauses()
    ensures Clauses([]) == []
  {
  }

  lemma HaveIs(m: Memory, cs: seq<Clause>, s: Section, lib: Library)
    requires Tracks(m, cs, lib)
    ensures s in m.have <==> Has(cs, s)
  {
    hide Has, WordsIn, LastGi, LastLtf, BytesOf;
  }

  lemma LastIsCur(m: Memory, cs: seq<Clause>, lib: Library)
    requires Tracks(m, cs, lib) && m.cur.Some?
    ensures cs != [] && SectionAt(cs[|cs| - 1]) == m.cur
  {
    hide Has, WordsIn, LastGi, LastLtf, BytesOf;
  }

  lemma StoreKeepsCur(m: Memory, w: string, lib: Library)
    requires m.cur.Some?
    ensures Store(m, m.cur.value, w, lib).cur == m.cur
  {
  }

  // ---------------------------------------------------------------- after the loop

  /** The bitmaps for eight numbers of streams. */
  ghost predicate MapsOf(maps: seq<bv16>, words: seq<string>, mode: Mode, sc: Scanner) {
    |maps| == NSS_MAX && forall n :: 0 <= n < NSS_MAX ==> Bits(maps[n]) == McsOf(ArgsOf(words), mode, sc, n)
  }

  /** One of the five calls of `setup_vht` and `setup_he`, made if the section was given. */
  method SetupSection(m: Memory, s: Section, mode: Mode, lib: Library) returns (ok: bool, maps: seq<bv16>)
    requires s in m.have ==> ReadToTheEnd(Get(m.args, s), mode, lib.sc)
    ensures ok <==> s !in m.have || AllChunks(Get(m.args, s), mode, lib.sc)
    ensures ok && s in m.have ==> MapsOf(maps, Get(m.args, s), mode, lib.sc)
  {
    hide AllChunks, McsOf, Bits, ReadToTheEnd;
    maps := [];
    if s !in m.have {
      return true, maps;
    }
    var txrate := new bv16[NSS_MAX](_ => 0);
    ok := Setup(txrate, Get(m.args, s), mode, lib.sc);
    maps := txrate[..];
  }

  /** The attributes nested for one band; what is absent is not put. */
  datatype BandMask = BandMask(legacy: Option<seq<byte>>, ht: Option<seq<byte>>, vht: Option<seq<bv16>>,
                               he: Option<seq<bv16>>, sgi: bool, lgi: bool, heGi: Option<nat>, heLtf: Option<int>)

  /** The guard interval sent for every band that asks for one. */
  function GiValue(cs: seq<Clause>): nat {
    if LastGi(cs).Some? && GiOf(LastGi(cs).value).Some? then GiOf(LastGi(cs).value).value else 0
  }

  /** The mask of a band says what the clauses for that band say. */
  ghost predicate Describes(b: BandMask, cs: seq<Clause>, band: Band, lib: Library) {
    && b.legacy == (if Has(cs, Legacy(band)) then Some(BytesOf(Legacy(band), WordsIn(cs, Legacy(band)), lib)) else None)
    && b.ht == (if Has(cs, Ht(band)) then Some(BytesOf(Ht(band), WordsIn(cs, Ht(band)), lib)) else None)
    && (b.vht.Some? <==> Has(cs, Vht(band)))
    && (b.vht.Some? ==> MapsOf(b.vht.value, WordsIn(cs, Vht(band)), VHT, lib.sc))
    && (b.he.Some? <==> Has(cs, He(band)))
    && (b.he.Some? ==> MapsOf(b.he.value, WordsIn(cs, He(band)), HE, lib.sc))
    && (b.sgi <==> Has(cs, Sgi(band))) && (b.lgi <==> Has(cs, Lgi(band)))
    && b.heGi == (if Has(cs, HeGi(band)) then Some(GiValue(cs)) else None)
    && b.heLtf == (if Has(cs, HeLtf(band)) then Some(LastLtf(cs)) else None)
  }

  /** The attributes of one band. */
  method BuildBand(m: Memory, band: Band, vht: seq<bv16>, he: seq<bv16>, gi: nat, ghost cs: seq<Clause>, lib: Library)
      returns (b: BandMask)
    requires Tracks(m, cs, lib) && gi == GiValue(cs)
    requires Vht(band) in m.have ==> MapsOf(vht, WordsIn(cs, Vht(band)), VHT, lib.sc)
    requires He(band) in m.have ==> MapsOf(he, WordsIn(cs, He(band)), HE, lib.sc)
    ensures Describes(b, cs, band, lib)
  {
    hide Has, WordsIn, LastGi, LastLtf, BytesOf, MapsOf, GiValue;
    b := BandMask(None, None, None, None, false, false, None, None);
    if Legacy(band) in m.have {
      b := b.(legacy := Some(Get(m.bytes, Legacy(band))));
    }
    if Ht(band) in m.have {
      b := b.(ht := Some(Get(m.bytes, Ht(band))));
    }
    if Vht(band) in m.have {
      b := b.(vht := Some(vht));
    }
    if He(band) in m.have {
      b := b.(he := Some(he));
    }
    b := b.(sgi := Sgi(band) in m.have, lgi := Lgi(band) in m.have);
    if HeGi(band) in m.have {
      b := b.(heGi := Some(gi));
    }
    if HeLtf(band) in m.have {
      b := b.(heLtf := Some(m.heLtf));
    }
  }

  /** Five sections hold rate chunks. */
  ghost predicate ChunksOf(cs: seq<Clause>, s: Section, mode: Mode, lib: Library) {
    Has(cs, s) ==> AllChunks(WordsIn(cs, s), mode, lib.sc)
  }

  ghost predicate AllChunkSections(cs: seq<Clause>, lib: Library) {
    && ChunksOf(cs, Vht(B24), VHT, lib) && ChunksOf(cs, Vht(B5), VHT, lib)
    && ChunksOf(cs, He(B24), HE, lib) && ChunksOf(cs, He(B5), HE, lib) && ChunksOf(cs, He(B6), HE, lib)
  }

  /** `sscanf` reads the chunks of a section. */
  ghost predicate ChunksRead(cs: seq<Clause>, s: Section, mode: Mode, lib: Library) {
    Has(cs, s) ==> ReadToTheEnd(WordsIn(cs, s), mode, lib.sc)
  }

  /** `sscanf` reads the chunks of each section, up to the first section that is refused. */
  ghost predicate AllChunksRead(cs: seq<Clause>, lib: Library) {
    && ChunksRead(cs, Vht(B24), VHT, lib)
    && (ChunksOf(cs, Vht(B24), VHT, lib) ==>
          && ChunksRead(cs, Vht(B5), VHT, lib)
          && (ChunksOf(cs, Vht(B5), VHT, lib) ==>
                && ChunksRead(cs, He(B24), HE, lib)
                && (ChunksOf(cs, He(B24), HE, lib) ==>
                      && ChunksRead(cs, He(B5), HE, lib)
                      && (ChunksOf(cs, He(B5), HE, lib) ==> ChunksRead(cs, He(B6), HE, lib)))))
  }

  /** The calls of `setup_vht` and `setup_he`, in order, up to the first that fails. */
  method SetupAll(m: Memory, ghost cs: seq<Clause>, lib: Library)
      returns (ok: bool, vht24: seq<bv16>, vht5: seq<bv16>, he24: seq<bv16>, he5: seq<bv16>, he6: seq<bv16>)
    requires Tracks(m, cs, lib) && AllChunksRead(cs, lib)
    ensures ok <==> AllChunkSections(cs, lib)
    ensures ok && Vht(B24) in m.have ==> MapsOf(vht24, WordsIn(cs, Vht(B24)), VHT, lib.sc)
    ensures ok && Vht(B5) in m.have ==> MapsOf(vht5, WordsIn(cs, Vht(B5)), VHT, lib.sc)
    ensures ok && He(B24) in m.have ==> MapsOf(he24, WordsIn(cs, He(B24)), HE, lib.sc)
    ensures ok && He(B5) in m.have ==> MapsOf(he5, WordsIn(cs, He(B5)), HE, lib.sc)
    ensures ok && He(B6) in m.have ==> MapsOf(he6, WordsIn(cs, He(B6)), HE, lib.sc)
  {
    hide AllChunks, ReadToTheEnd, MapsOf, BytesOf, WordsIn, Has, LastGi, LastLtf;
    vht24, vht5, he24, he5, he6 := [], [], [], [], [];
    ok, vht24 := SetupSection(m, Vht(B24), VHT, lib);
    if !ok {
      return;
    }
    ok, vht5 := SetupSection(m, Vht(B5), VHT, lib);
    if !ok {
      return;
    }
    ok, he24 := SetupSection(m, He(B24), HE, lib);
    if !ok {
      return;
    }
    ok, he5 := SetupSection(m, He(B5), HE, lib);
    if !ok {
      return;
    }
    ok, he6 := SetupSection(m, He(B6), HE, lib);
  }

  /**
   What `set_bitrates` returns.  For a TID configuration that is the number of arguments used: all of
   them, or none when the first begins no section.
   */
  ghost function Returned(args: seq<string>, tid: bool, lib: Library): int {
    var cs := Clauses(args);
    if !Starts(args) then (if tid then 0 else 1)
    else if !LoopOk(cs, lib) then 1
    else if !AllChunkSections(cs, lib) then -EINVAL
    else if !GuardsOk(cs) then 1
    else if tid then |args|
    else 0
  }

  /** The arguments make a mask. */
  ghost predicate Accepted(args: seq<string>, lib: Library) {
    var cs := Clauses(args);
    Starts(args) && LoopOk(cs, lib) && AllChunkSections(cs, lib) && GuardsOk(cs)
  }

  /**
   What the code does with the arguments is defined: words are stored within their arrays and converted to
   values they have, and no blank chunk is scanned.
   */
  ghost predicate Defined(args: seq<string>, lib: Library) {
    && StoresWell(args, lib)
    && (Starts(args) && LoopOk(Clauses(args), lib) ==> AllChunksRead(Clauses(args), lib))
  }

  lemma GoodSectionIsRead(cs: seq<Clause>, s: Section, mode: Mode, lib: Library)
    requires ChunksOf(cs, s, mode, lib)
    ensures ChunksRead(cs, s, mode, lib)
  {
    hide WordsIn, Has, AllChunks, ReadToTheEnd;
    if Has(cs, s) {
      GoodChunksAreRead(WordsIn(cs, s), mode, lib.sc);
    }
  }

  /** For arguments that make a mask, that is so if and only if every word can be stored. */
  lemma WhenAcceptedIsDefined(args: seq<string>, lib: Library)
    requires Accepted(args, lib)
    ensures Defined(args, lib) <==> Storable(Clauses(args), lib)
  {
    hide LoopOk, Storable, StoresWell, Starts, ChunksOf, ChunksRead, Clauses, GuardsOk;
    var cs := Clauses(args);
    WhenTheLoopStoresWell(args, lib);
    GoodSectionIsRead(cs, Vht(B24), VHT, lib);
    GoodSectionIsRead(cs, Vht(B5), VHT, lib);
    GoodSectionIsRead(cs, He(B24), HE, lib);
    GoodSectionIsRead(cs, He(B5), HE, lib);
    GoodSectionIsRead(cs, He(B6), HE, lib);
  }

  /**
   The bytes of a band are the words after its legacy section, each byte the number of half megabits below
   the rate that the library reads, and the numbers after its HT section.
   */
  ghost predicate HoldsRates(m: BandMask, cs: seq<Clause>, band: Band, lib: Library) {
    && (forall i :: 0 <= i < |cs| && SectionAt(cs[i]) == Some(Legacy(band)) ==>
          && m.legacy.Some? && |m.legacy.value| == |cs[i].words|
          && forall k :: 0 <= k < |cs[i].words| ==> IsHalfMegabits(m.legacy.value[k], lib.rate(cs[i].words[k])))
    && (forall i :: 0 <= i < |cs| && SectionAt(cs[i]) == Some(Ht(band)) ==>
          && m.ht.Some? && |m.ht.value| == |cs[i].words|
          && forall k :: 0 <= k < |cs[i].words| ==> m.ht.value[k] as int == Strtol(cs[i].words[k]).0)
    && (m.legacy.Some? ==> exists i :: 0 <= i < |cs| && SectionAt(cs[i]) == Some(Legacy(band)))
    && (m.ht.Some? ==> exists i :: 0 <= i < |cs| && SectionAt(cs[i]) == Some(Ht(band)))
  }

  predicate IsHalfMegabits(b: byte, d: Double) {
    d.Finite? && b as real <= 2.0 * d.value && 2.0 * d.value < b as real + 1.0
  }

  lemma LegacyByteIs(b: Band, w: string, lib: Library)
    requires Convertible(lib.rate(w))
    ensures IsHalfMegabits(ByteOf(Legacy(b), w, lib), lib.rate(w))
  {
  }

  lemma HtByteIs(b: Band, w: string, lib: Library)
    requires 0 <= Strtol(w).0 <= 255
    ensures ByteOf(Ht(b), w, lib) as int == Strtol(w).0
  {
    hide Strtol;
  }

  lemma DescribedRates(m: BandMask, cs: seq<Clause>, band: Band, lib: Library)
    requires Describes(m, cs, band, lib) && LoopOk(cs, lib) && Storable(cs, lib)
    ensures HoldsRates(m, cs, band, lib)
  {
    hide MapsOf, GiValue, LastLtf, ByteOf, IsHalfMegabits, SectionOf, Strtol, WordsIn, LtfOf, Convertible, Below, Above;
    forall i | 0 <= i < |cs| && SectionAt(cs[i]) == Some(Legacy(band))
      ensures m.legacy.Some? && m.legacy.value == BytesOf(Legacy(band), cs[i].words, lib)
      ensures forall k :: 0 <= k < |cs[i].words| ==> IsHalfMegabits(m.legacy.value[k], lib.rate(cs[i].words[k]))
    {
      WordsOfTheOnly(cs, i, lib);
      assert ClauseStorable(cs[i], lib);
      forall k | 0 <= k < |cs[i].words|
        ensures IsHalfMegabits(m.legacy.value[k], lib.rate(cs[i].words[k]))
      {
        LegacyByteIs(band, cs[i].words[k], lib);
      }
    }
    forall i | 0 <= i < |cs| && SectionAt(cs[i]) == Some(Ht(band))
      ensures m.ht.Some? && m.ht.value == BytesOf(Ht(band), cs[i].words, lib)
      ensures forall k :: 0 <= k < |cs[i].words| ==> m.ht.value[k] as int == Strtol(cs[i].words[k]).0
    {
      WordsOfTheOnly(cs, i, lib);
      assert ClauseOk(cs[i], lib);
      forall k | 0 <= k < |cs[i].words|
        ensures m.ht.value[k] as int == Strtol(cs[i].words[k]).0
      {
        assert WordOk(Ht(band), cs[i].words[k], k, lib);
        HtByteIs(band, cs[i].words[k], lib);
      }
    }
  }

  /**
   The bitmaps of a band are those of its VHT and HE chunks; guards are forced and sizes sent in the bands for
   which they are given, and nothing else is.
   */
  ghost predicate HoldsMaps(m: BandMask, cs: seq<Clause>, band: Band, lib: Library) {
    && (forall i :: 0 <= i < |cs| && SectionAt(cs[i]) == Some(Vht(band)) ==>
          && m.vht.Some? && |m.vht.value| == 8
          && forall n :: 0 <= n < 8 ==> Bits(m.vht.value[n]) == McsOf(ArgsOf(cs[i].words), VHT, lib.sc, n))
    && (forall i :: 0 <= i < |cs| && SectionAt(cs[i]) == Some(He(band)) ==>
          && m.he.Some? && |m.he.value| == 8
          && forall n :: 0 <= n < 8 ==> Bits(m.he.value[n]) == McsOf(ArgsOf(cs[i].words), HE, lib.sc, n))
    && (m.vht.Some? ==> Given(cs, Vht(band))) && (m.he.Some? ==> Given(cs, He(band)))
    && (m.sgi <==> Given(cs, Sgi(band))) && (m.lgi <==> Given(cs, Lgi(band)))
    && (m.heGi.Some? <==> Given(cs, HeGi(band))) && (m.heLtf.Some? <==> Given(cs, HeLtf(band)))
    && (m.heGi.Some? ==> m.heGi.value == if LastGi(cs).Some? && GiOf(LastGi(cs).value).Some? then GiOf(LastGi(cs).value).value else 0)
    && (m.heLtf.Some? ==> m.heLtf.value == LastLtf(cs))
  }

  ghost predicate Given(cs: seq<Clause>, s: Section) {
    exists i :: 0 <= i < |cs| && SectionAt(cs[i]) == Some(s)
  }

  lemma DescribedMaps(m: BandMask, cs: seq<Clause>, band: Band, lib: Library)
    requires Describes(m, cs, band, lib) && LoopOk(cs, lib)
    ensures HoldsMaps(m, cs, band, lib)
  {
    hide LastGi, LastLtf, SectionOf, WordsIn, Bits, McsOf, ArgsOf, GiOf, BytesOf, LoopOk;
    forall i | 0 <= i < |cs| && SectionAt(cs[i]).Some? && IsRate(SectionAt(cs[i]).value)
      ensures WordsIn(cs, SectionAt(cs[i]).value) == cs[i].words
    {
      WordsOfTheOnly(cs, i, lib);
    }
    assert forall s :: Has(cs, s) <==> Given(cs, s);
  }

  /** The attributes of a band are as described, and hold the rates, bitmaps and guards that its clauses give. */
  ghost predicate IsMask(m: BandMask, cs: seq<Clause>, band: Band, lib: Library) {
    Describes(m, cs, band, lib) && HoldsRates(m, cs, band, lib) && HoldsMaps(m, cs, band, lib)
  }

  lemma DescribedIsMask(m: BandMask, cs: seq<Clause>, band: Band, lib: Library)
    requires Describes(m, cs, band, lib) && LoopOk(cs, lib) && Storable(cs, lib)
    ensures IsMask(m, cs, band, lib)
  {
    hide Describes, LoopOk, Storable, HoldsRates, HoldsMaps;
    DescribedRates(m, cs, band, lib);
    DescribedMaps(m, cs, band, lib);
  }

  /** The checks of the guards, and the guard interval. */
  method CheckGuards(m: Memory, ghost cs: seq<Clause>, lib: Library) returns (ok: bool, gi: nat)
    requires Tracks(m, cs, lib)
    ensures ok <==> GuardsOk(cs)
    ensures ok ==> gi == GiValue(cs)
  {
    hide WordsIn, BytesOf, Has, LastGi, LastLtf, GiOf;
    if Sgi(B5) in m.have && Lgi(B5) in m.have {
      return false, 0;
    }
    if Sgi(B24) in m.have && Lgi(B24) in m.have {
      return false, 0;
    }
    ok, gi := true, 0;
    if m.heGi.Some? {
      var r := GiOf(m.heGi.value);
      if r.None? {
        return false, 0;
      }
      gi := r.value;
    }
  }

  /** `set_bitrates`, when there is room in the message; the masks are those of the three bands. */
  method SetBitrates(args: seq<string>, tid: bool, lib: Library)
      returns (ret: int, b24: BandMask, b5: BandMask, b6: BandMask)
    requires Defined(args, lib)
    ensures ret == Returned(args, tid, lib)
    ensures Accepted(args, lib) ==>
              && IsMask(b24, Clauses(args), B24, lib) && IsMask(b5, Clauses(args), B5, lib)
              && IsMask(b6, Clauses(args), B6, lib)
  {
    hide LoopOk, Clauses, MapsOf, WordsIn, Describes, GuardsOk, GiValue, Starts, AllChunkSections, AllChunksRead;
    hide StoresWell, IsMask, Storable, SectionOf, Has, BytesOf, LastGi, LastLtf;
    var none := BandMask(None, None, None, None, false, false, None, None);
    b24, b5, b6 := none, none, none;
    ghost var cs := Clauses(args);
    var end, m, i := ReadSections(args, lib);
    if end == Rejected {
      return 1, none, none, none;
    }
    if end == NoSection {
      if !tid {
        return 1, none, none, none;
      }
      return i, none, none, none;
    }
    var ok, vht24, vht5, he24, he5, he6 := SetupAll(m, cs, lib);
    if !ok {
      return -EINVAL, none, none, none;
    }
    var gi;
    ok, gi := CheckGuards(m, cs, lib);
    if !ok {
      return 1, none, none, none;
    }
    assert Accepted(args, lib);
    WhenAcceptedIsDefined(args, lib);
    HaveIs(m, cs, Vht(B6), lib);
    NoVhtAt6(cs);
    hide Tracks, Defined;
    b24 := BuildBand(m, B24, vht24, he24, gi, cs, lib);
    b5 := BuildBand(m, B5, vht5, he5, gi, cs, lib);
    b6 := BuildBand(m, B6, [], he6, gi, cs, lib);
    DescribedIsMask(b24, cs, B24, lib);
    DescribedIsMask(b5, cs, B5, lib);
    DescribedIsMask(b6, cs, B6, lib);
    ret := if tid then i else 0;
  }

  /** No word begins a VHT section for the 6 GHz band. */
  lemma NoVhtAt6(cs: seq<Clause>)
    ensures !Has(cs, Vht(B6))
  {
    forall c | c in cs
      ensures SectionAt(c) != Some(Vht(B6))
    {
    }
  }

  /** For a TID configuration a result of two or more means that all arguments, at least two, make a mask. */
  lemma AllOrNothing(args: seq<string>, lib: Library)
    ensures Returned(args, false, lib) == 0 <==> Accepted(args, lib)
    ensures Returned(args, true, lib) >= 2 <==> Accepted(args, lib) && |args| >= 2
    ensures Accepted(args, lib) ==> Returned(args, true, lib) == |args|
    ensures forall tid :: Returned(args, tid, lib) == -22 <==>
              Starts(args) && LoopOk(Clauses(args), lib) && !AllChunkSections(Clauses(args), lib)
  {
  }

  /** After "vht-mcs-5" a blank argument has no defined result. */
  lemma BlankChunk(lib: Library)
    ensures !Defined(["vht-mcs-5", ""], lib)
  {
    var args, c := ["vht-mcs-5", ""], Clause("vht-mcs-5", [""]);
    var cs := [c];
    assert SectionAt(c) == Some(Vht(B5)) && SectionOf("").None?;
    hide SectionOf;
    FlattenOne(c);
    ClausesOfFlatten(cs);
    assert Flatten(cs) == args;
    hide Flatten, Clauses;
    assert LoopOk(cs, lib);
    assert WordsIn(cs, Vht(B5)) == [""] by {
      assert WordsIn(cs[..0], Vht(B5)) == [];
    }
    assert c in cs && !Has(cs, Vht(B24)) && Has(cs, Vht(B5));
    assert Blank("");
  }

  lemma OneLegacyRate(w: string, lib: Library)
    requires SectionOf(w).None? && !lib.rate(w).Unread? && !Below(lib.rate(w), 1.0) && !Above(lib.rate(w), 510.0)
    ensures Accepted(["legacy-5", w], lib) && (Defined(["legacy-5", w], lib) <==> Convertible(lib.rate(w)))
  {
    var args, c := ["legacy-5", w], Clause("legacy-5", [w]);
    var cs := [c];
    assert SectionAt(c) == Some(Legacy(B5));
    hide SectionOf, Convertible, Below, Above;
    FlattenOne(c);
    ClausesOfFlatten(cs);
    assert Flatten(cs) == args;
    hide Flatten, Clauses;
    assert LoopOk(cs, lib);
    forall x: Section | Has(cs, x)
      ensures x == Legacy(B5)
    {
    }
    assert LastGi(cs) == None by {
      assert LastGi(cs[..0]) == None;
    }
    WhenAcceptedIsDefined(args, lib);
    assert c.words[0] == w;
    assert Storable(cs, lib) <==> ClauseStorable(c, lib);
  }

  /** The arguments "legacy-5 200" and "legacy-5 nan" are accepted, and what they store is not defined. */
  lemma UndefinedRates(lib: Library)
    requires lib.rate("200") == Finite(200.0) && lib.rate("nan") == NaN
    ensures Accepted(["legacy-5", "200"], lib) && !Defined(["legacy-5", "200"], lib)
    ensures Accepted(["legacy-5", "nan"], lib) && !Defined(["legacy-5", "nan"], lib)
  {
    assert SectionOf("200").None? && SectionOf("nan").None?;
    hide SectionOf, Accepted, Defined;
    OneLegacyRate("200", lib);
    OneLegacyRate("nan", lib);
  }
}
