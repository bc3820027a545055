/**
 The message of `handle_scan` (wifi/iw/scan.c): what the clauses add to the variables of the handler, what is
 put into the message, and what it then holds, in terms of the clauses.
 */
module ScanMessage {
  import opened Bytes
  import opened CNumbers
  import opened HexPattern
  import opened Options
  import opened Scan

  // ---------------------------------------------------------------- what clauses add

  datatype Flag = LowPriority | FlushScan | ApForce | Colocated6GHz | RandomAddr

  function FlagOf(t: string): Flag {
    if t == LOWPRI then LowPriority else if t == FLUSH then FlushScan else if t == AP_FORCE then ApForce else Colocated6GHz
  }

  const MESH_ELEMENT_ID: byte := 114

  function Octets(t: string): seq<byte> {
    seq(|t|, i requires 0 <= i < |t| => (t[i] as int % 256) as byte)
  }

  /** The element for a mesh identifier; its length is stored in a byte. */
  function MeshElement(t: string): seq<byte> {
    [MESH_ELEMENT_ID, (|t| % 256) as byte] + Octets(t)
  }

  /** The variables of `handle_scan` that outlive a turn of its loop. */
  datatype Memory = Memory(macs: seq<string>, flags: set<Flag>, ies: Option<seq<byte>>, meshid: Option<seq<byte>>,
                           duration: nat, mandatory: bool, passive: bool, haveSsids: bool, haveFreqs: bool,
                           ssids: seq<(nat, string)>, freqs: seq<(nat, nat)>, err: int)

  const INITIAL := Memory([], {}, None, None, 0, false, false, false, false, [], [], -ENOBUFS)

  /** List items are numbered by the position of their argument. */
  function NumberedFreqs(l: seq<string>, first: nat): seq<(nat, nat)> {
    seq(|l|, i requires 0 <= i < |l| => (first + i, UintOf(l[i])))
  }

  function NumberedSsids(l: seq<string>, first: nat): seq<(nat, string)> {
    seq(|l|, i requires 0 <= i < |l| => (first + i, l[i]))
  }

  /** What the clause that begins at argument `pos` adds. */
  function AddClause(m: Memory, c: Clause, pos: nat): Memory {
    match c
    case Freq(l) => m.(haveFreqs := true, freqs := m.freqs + NumberedFreqs(l, pos + 1))
    case IesHex(t) => m.(ies := ElementsOf(t))
    case FlagWord(t) => m.(flags := m.flags + {FlagOf(t)})
    case DurationMandatory => m.(mandatory := true)
    case Randomise(t) =>
      m.(macs := m.macs + [if |t| >= 9 then t[9..] else []], flags := m.flags + {RandomAddr}, err := 0)
    case Ssid(l) => m.(haveSsids := true, ssids := m.ssids + NumberedSsids(l, pos + 1))
    case Passive => m.(passive := true)
    case MeshId(t) => m.(meshid := Some(MeshElement(t)))
    case Duration(t) => m.(duration := UintOf(t))
    case Unfinished(_) => m
  }

  /** The number of arguments that clauses take. */
  function Width(cs: seq<Clause>): nat {
    if cs == [] then 0 else Width(cs[..|cs| - 1]) + |Words(cs[|cs| - 1])|
  }

  function Gather(cs: seq<Clause>): Memory {
    if cs == [] then INITIAL else AddClause(Gather(cs[..|cs| - 1]), cs[|cs| - 1], Width(cs[..|cs| - 1]))
  }

  lemma OneMoreClause(cs: seq<Clause>, c: Clause)
    ensures Width(cs + [c]) == Width(cs) + |Words(c)| && Gather(cs + [c]) == AddClause(Gather(cs), c, Width(cs))
  {
    assert (cs + [c])[..|cs|] == cs;
  }

  lemma MacAdded(m: Memory, c: Clause, pos: nat)
    ensures AddClause(m, c, pos).macs ==
            m.macs + if c.Randomise? then [if |c.t| >= 9 then c.t[9..] else []] else []
  {
    hide ElementsOf, NumberedFreqs, NumberedSsids, MeshElement, UintOf, FlagOf;
  }

  lemma {:induction false} MacsGathered(cs: seq<Clause>)
    ensures Gather(cs).macs == Macs(cs)
  {
    if cs != [] {
      var n := |cs| - 1;
      MacsGathered(cs[..n]);
      MacAdded(Gather(cs[..n]), cs[n], Width(cs[..n]));
      hide AddClause, Width;
    }
  }

  // ---------------------------------------------------------------- the message

  datatype Put =
    | PutMac(t: string)
    | PutIe(elements: seq<byte>)
    | PutSsids(ssids: seq<(nat, string)>)
    | PutFreqs(freqs: seq<(nat, nat)>)
    | PutFlags(flags: set<Flag>)
    | PutDuration(n: nat)
    | PutDurationMandatory

  function When(condition: bool, p: Put): seq<Put> {
    if condition then [p] else []
  }

  function ValueOr(o: Option<seq<byte>>): seq<byte> {
    if o.Some? then o.value else []
  }

  function MacPuts(macs: seq<string>): seq<Put> {
    seq(|macs|, i requires 0 <= i < |macs| => PutMac(macs[i]))
  }

  /** Everything put into the message for a complete reading. */
  function MessageOf(m: Memory): seq<Put> {
    var flags := if m.haveFreqs then m.flags else m.flags + {Colocated6GHz};
    MacPuts(m.macs)
    + When(m.ies.Some? || m.meshid.Some?, PutIe(ValueOr(m.ies) + ValueOr(m.meshid)))
    + When(!m.passive, PutSsids(if m.haveSsids then m.ssids else m.ssids + [(1, "")]))
    + When(m.haveFreqs, PutFreqs(m.freqs))
    + When(flags != {}, PutFlags(flags))
    + When(m.duration != 0, PutDuration(m.duration % 0x1_0000))
    + When(m.mandatory, PutDurationMandatory)
  }

  // ---------------------------------------------------------------- what is sent

  lemma AddedFlags(m: Memory, c: Clause, pos: nat)
    ensures AddClause(m, c, pos).passive == (m.passive || c.Passive?)
    ensures AddClause(m, c, pos).haveSsids == (m.haveSsids || c.Ssid?)
    ensures AddClause(m, c, pos).mandatory == (m.mandatory || c.DurationMandatory?)
  {
    hide ElementsOf, NumberedFreqs, NumberedSsids, MeshElement, UintOf, FlagOf;
  }

  ghost predicate HasPassive(cs: seq<Clause>) {
    exists c :: c in cs && c.Passive?
  }

  ghost predicate HasSsid(cs: seq<Clause>) {
    exists c :: c in cs && c.Ssid?
  }

  lemma {:induction false} FlagsComeFromClauses(cs: seq<Clause>)
    ensures (Gather(cs).passive <==> HasPassive(cs)) && (Gather(cs).haveSsids <==> HasSsid(cs))
    ensures Gather(cs).mandatory <==> DurationMandatory in cs
  {
    if cs != [] {
      var before, c := cs[..|cs| - 1], cs[|cs| - 1];
      FlagsComeFromClauses(before);
      AddedFlags(Gather(before), c, Width(before));
      assert Gather(cs) == AddClause(Gather(before), c, Width(before));
      hide AddClause, Width, Gather;
      assert cs == before + [c];
      assert forall d :: d in cs <==> d in before || d == c;
    }
  }

  /** The names are sent unless scanning is passive; a mandatory duration is sent exactly when it is asked for. */
  lemma WhatIsSent(cs: seq<Clause>)
    ensures (exists p :: p in MessageOf(Gather(cs)) && p.PutSsids?) <==> !HasPassive(cs)
    ensures PutDurationMandatory in MessageOf(Gather(cs)) <==> DurationMandatory in cs
  {
    FlagsComeFromClauses(cs);
    hide HasPassive, HasSsid;
    PutsOf(Gather(cs));
    hide Gather, MessageOf;
  }

  lemma PutsOf(m: Memory)
    ensures (exists p :: p in MessageOf(m) && p.PutSsids?) <==> !m.passive
    ensures PutDurationMandatory in MessageOf(m) <==> m.mandatory
  {
    hide ValueOr, When;
    forall c: bool, p: Put, q: Put
      ensures q in When(c, p) <==> c && q == p
    {
      InWhen(c, p, q);
    }
    forall p | p in MacPuts(m.macs)
      ensures p.PutMac?
    {
    }
    hide MacPuts;
    var names := PutSsids(if m.haveSsids then m.ssids else m.ssids + [(1, "")]);
    hide MacPuts;
    assert names in MessageOf(m) <==> !m.passive;
  }

  lemma InWhen(c: bool, p: Put, q: Put)
    ensures q in When(c, p) <==> c && q == p
  {
  }

  lemma WidthFront(c: Clause, cs: seq<Clause>)
    ensures Width([c] + cs) == |Words(c)| + Width(cs)
  {
    hide Words;
    if cs == [] {
      assert [c] + cs == [c] && [c][..0] == [];
    } else {
      var n := |cs| - 1;
      WidthFront(c, cs[..n]);
      assert ([c] + cs)[..n + 1] == [c] + cs[..n];
    }
  }

  /** Where the words of a clause stand. */
  ghost predicate StandsAt(args: seq<string>, at: nat, c: Clause) {
    && at + |Words(c)| <= |args| && Words(c) == args[at..at + |Words(c)|]
    && InOrder(c, args[at + |Words(c)|..])
  }

  lemma StandsFurther(args: seq<string>, n: nat, at: nat, c: Clause)
    requires n <= |args| && StandsAt(args[n..], at, c)
    ensures StandsAt(args, n + at, c)
  {
    hide Words, InOrder;
    var w := |Words(c)|;
    assert args[n..][at..at + w] == args[n + at..n + at + w];
    assert args[n..][at + w..] == args[n + at + w..];
  }

  lemma {:induction false} ClauseStands(args: seq<string>, cs: seq<Clause>, rest: seq<string>, k: nat)
    requires Writes(args, cs, rest) && k < |cs|
    ensures StandsAt(args, Width(cs[..k]), cs[k])
    decreases k
  {
    hide Words, InOrder;
    if k > 0 {
      hide StandsAt, Width;
      var n := |Words(cs[0])|;
      ClauseStands(args[n..], cs[1..], rest, k - 1);
      WidthFront(cs[0], cs[1..][..k - 1]);
      assert cs[..k] == [cs[0]] + cs[1..][..k - 1];
      StandsFurther(args, n, Width(cs[1..][..k - 1]), cs[k]);
    } else {
      assert cs[..0] == [] && args[0..] == args;
    }
  }

  /** The items of a message are arguments: frequencies that are numbers, and names, at their positions. */
  ghost predicate ItemsAre(m: Memory, args: seq<string>) {
    && (forall x :: x in m.freqs ==> x.0 < |args| && IsDecimal(args[x.0]) && x.1 == UintOf(args[x.0]))
    && (forall x :: x in m.ssids ==> x.0 < |args| && x.1 == args[x.0])
  }

  lemma EmptyItems(args: seq<string>)
    ensures ItemsAre(INITIAL, args)
  {
  }

  lemma ItemsAdded(m: Memory, c: Clause, at: nat, args: seq<string>)
    requires ItemsAre(m, args) && StandsAt(args, at, c)
    ensures ItemsAre(AddClause(m, c, at), args)
  {
    hide ElementsOf, HexFits, MeshElement, UintOf, FlagOf, KindOf, IsDecimal;
    if c.Freq? {
      forall i | 0 <= i < |c.freqs|
        ensures at + 1 + i < |args| && args[at + 1 + i] == c.freqs[i]
      {
        assert Words(c)[i + 1] == c.freqs[i];
      }
    } else if c.Ssid? {
      forall i | 0 <= i < |c.ssids|
        ensures at + 1 + i < |args| && args[at + 1 + i] == c.ssids[i]
      {
        assert Words(c)[i + 1] == c.ssids[i];
      }
    }
  }

  lemma {:induction false} ItemsOfPrefix(args: seq<string>, cs: seq<Clause>, rest: seq<string>, k: nat)
    requires Writes(args, cs, rest) && k <= |cs|
    ensures ItemsAre(Gather(cs[..k]), args)
  {
    hide StandsAt, AddClause, Writes, ItemsAre, Width;
    EmptyItems(args);
    if k > 0 {
      ItemsOfPrefix(args, cs, rest, k - 1);
      ClauseStands(args, cs, rest, k - 1);
      assert cs[..k][..k - 1] == cs[..k - 1];
      ItemsAdded(Gather(cs[..k - 1]), cs[k - 1], Width(cs[..k - 1]), args);
    }
  }

  /** Every frequency and name sent is an argument, numbered by its position. */
  lemma ItemsAreArguments(args: seq<string>, mac: string -> int)
    requires Read([], args, mac).Complete?
    ensures ItemsAre(Gather(Read([], args, mac).clauses), args)
  {
    hide Read, Gather, ItemsAre;
    var cs := Read([], args, mac).clauses;
    ReadIff(args, mac, cs);
    ItemsOfPrefix(args, cs, [], |cs|);
    assert cs[..|cs|] == cs;
  }

  // ---------------------------------------------------------------- the message in terms of the clauses

  ghost predicate HasFreq(cs: seq<Clause>) {
    exists c :: c in cs && c.Freq?
  }

  ghost predicate HasAddress(cs: seq<Clause>, a: string) {
    exists c :: c in cs && c.Randomise? && (if |c.t| >= 9 then c.t[9..] else []) == a
  }

  /** Every word for a flag is one of the four there are. */
  ghost predicate FlagWordsKnown(cs: seq<Clause>) {
    forall c :: c in cs && c.FlagWord? ==> c.t == "lowpri" || c.t == "flush" || c.t == "ap-force" || c.t == "coloc"
  }

  /** The flags of the clauses. */
  ghost predicate AreFlags(f: set<Flag>, cs: seq<Clause>) {
    && (LowPriority in f <==> FlagWord("lowpri") in cs) && (FlushScan in f <==> FlagWord("flush") in cs)
    && (ApForce in f <==> FlagWord("ap-force") in cs) && (Colocated6GHz in f <==> FlagWord("coloc") in cs)
    && (RandomAddr in f <==> Randomised(cs))
  }

  /** The bytes of the last element option, or none. */
  function ElementsIn(cs: seq<Clause>): Option<seq<byte>> {
    if cs == [] then None
    else
      var n := |cs| - 1;
      if cs[n].IesHex? then ElementsOf(cs[n].t) else ElementsIn(cs[..n])
  }

  /** The last mesh identifier, or none. */
  function MeshIdIn(cs: seq<Clause>): Option<string> {
    if cs == [] then None
    else
      var n := |cs| - 1;
      if cs[n].MeshId? then Some(cs[n].t) else MeshIdIn(cs[..n])
  }

  /** Element 114 with the identifier; its length is cut to a byte. */
  predicate IsMeshElement(e: seq<byte>, t: string) {
    |e| == 2 + |t| && e[0] == 114 && e[1] as int == |t| % 256 && forall i :: 0 <= i < |t| ==> e[2 + i] as int == t[i] as int % 256
  }

  /** The number of the last duration, or zero. */
  function DurationIn(cs: seq<Clause>): nat {
    if cs == [] then 0
    else
      var n := |cs| - 1;
      if cs[n].Duration? then UintOf(cs[n].t) else DurationIn(cs[..n])
  }

  /** The arguments of all lists of frequencies, one after the other; and of the names. */
  function FreqsIn(cs: seq<Clause>): seq<string> {
    if cs == [] then []
    else
      var n := |cs| - 1;
      FreqsIn(cs[..n]) + if cs[n].Freq? then cs[n].freqs else []
  }

  function NamesIn(cs: seq<Clause>): seq<string> {
    if cs == [] then []
    else
      var n := |cs| - 1;
      NamesIn(cs[..n]) + if cs[n].Ssid? then cs[n].ssids else []
  }

  predicate AreFreqs(l: seq<(nat, nat)>, args: seq<string>) {
    |l| == |args| && forall i :: 0 <= i < |l| ==> l[i].1 == UintOf(args[i])
  }

  predicate AreNames(l: seq<(nat, string)>, args: seq<string>) {
    |l| == |args| && forall i :: 0 <= i < |l| ==> l[i].1 == args[i]
  }

  ghost predicate Remembers(m: Memory, cs: seq<Clause>) {
    && AreFlags(m.flags, cs) && m.ies == ElementsIn(cs) && m.duration == DurationIn(cs)
    && (m.meshid.Some? <==> MeshIdIn(cs).Some?) && (m.meshid.Some? ==> IsMeshElement(m.meshid.value, MeshIdIn(cs).value))
    && (m.haveFreqs <==> HasFreq(cs)) && AreFreqs(m.freqs, FreqsIn(cs)) && AreNames(m.ssids, NamesIn(cs))
    && (forall a :: a in m.macs <==> HasAddress(cs, a))
  }

  lemma {:induction false} GatherRemembers(cs: seq<Clause>)
    requires FlagWordsKnown(cs)
    ensures Remembers(Gather(cs), cs)
  {
    if cs != [] {
      var n := |cs| - 1;
      var before, c := cs[..n], cs[n];
      assert forall d :: d in before ==> d in cs;
      assert c in cs;
      GatherRemembers(before);
      assert cs == before + [c];
      AddRemembersFlags(Gather(before), before, c, Width(before));
      AddRemembersLists(Gather(before), before, c, Width(before));
      AddRemembersRest(Gather(before), before, c, Width(before));
      hide AddClause, Width, AreFlags, AreFreqs, AreNames, IsMeshElement, HasAddress, ElementsOf;
    }
  }

  lemma AddRemembersFlags(m: Memory, cs: seq<Clause>, c: Clause, pos: nat)
    requires AreFlags(m.flags, cs) && FlagWordsKnown(cs + [c])
    ensures AreFlags(AddClause(m, c, pos).flags, cs + [c])
  {
    hide ElementsOf, NumberedFreqs, NumberedSsids, MeshElement, UintOf;
    assert c in cs + [c] && forall d :: d in cs + [c] <==> d in cs || d == c;
  }

  lemma AddRemembersLists(m: Memory, cs: seq<Clause>, c: Clause, pos: nat)
    requires (m.haveFreqs <==> HasFreq(cs)) && AreFreqs(m.freqs, FreqsIn(cs)) && AreNames(m.ssids, NamesIn(cs))
    ensures var h, ds := AddClause(m, c, pos), cs + [c];
            (h.haveFreqs <==> HasFreq(ds)) && AreFreqs(h.freqs, FreqsIn(ds)) && AreNames(h.ssids, NamesIn(ds))
  {
    var h, ds := AddClause(m, c, pos), cs + [c];
    ListsAdded(m, c, pos);
    hide AddClause;
    assert ds[..|cs|] == cs && ds[|cs|] == c;
    assert HasFreq(ds) <==> HasFreq(cs) || c.Freq? by {
      assert c in ds && forall d :: d in ds <==> d in cs || d == c;
    }
    hide HasFreq;
    if c.Freq? {
      MoreFreqs(m.freqs, FreqsIn(cs), c.freqs, pos + 1);
    } else {
      assert FreqsIn(cs) + [] == FreqsIn(cs);
    }
    if c.Ssid? {
      MoreNames(m.ssids, NamesIn(cs), c.ssids, pos + 1);
    } else {
      assert NamesIn(cs) + [] == NamesIn(cs);
    }
    hide AreFreqs, AreNames;
  }

  lemma ListsAdded(m: Memory, c: Clause, pos: nat)
    ensures var h := AddClause(m, c, pos);
            && h.freqs == (if c.Freq? then m.freqs + NumberedFreqs(c.freqs, pos + 1) else m.freqs)
            && h.ssids == (if c.Ssid? then m.ssids + NumberedSsids(c.ssids, pos + 1) else m.ssids)
            && (h.haveFreqs <==> m.haveFreqs || c.Freq?)
  {
    hide ElementsOf, MeshElement, UintOf, FlagOf, NumberedFreqs, NumberedSsids;
  }

  lemma MoreFreqs(l: seq<(nat, nat)>, args: seq<string>, more: seq<string>, first: nat)
    requires AreFreqs(l, args)
    ensures AreFreqs(l + NumberedFreqs(more, first), args + more)
  {
    hide UintOf;
  }

  lemma MoreNames(l: seq<(nat, string)>, args: seq<string>, more: seq<string>, first: nat)
    requires AreNames(l, args)
    ensures AreNames(l + NumberedSsids(more, first), args + more)
  {
  }

  lemma AddRemembersRest(m: Memory, cs: seq<Clause>, c: Clause, pos: nat)
    requires m.ies == ElementsIn(cs) && m.duration == DurationIn(cs)
    requires (m.meshid.Some? <==> MeshIdIn(cs).Some?) && (m.meshid.Some? ==> IsMeshElement(m.meshid.value, MeshIdIn(cs).value))
    requires forall a :: a in m.macs <==> HasAddress(cs, a)
    ensures var h, ds := AddClause(m, c, pos), cs + [c];
            && h.ies == ElementsIn(ds) && h.duration == DurationIn(ds)
            && (h.meshid.Some? <==> MeshIdIn(ds).Some?) && (h.meshid.Some? ==> IsMeshElement(h.meshid.value, MeshIdIn(ds).value))
            && (forall a :: a in h.macs <==> HasAddress(ds, a))
  {
    assert (cs + [c])[..|cs|] == cs;
    MacAdded(m, c, pos);
    hide ElementsOf, NumberedFreqs, NumberedSsids, UintOf, FlagOf;
    forall a
      ensures HasAddress(cs + [c], a) <==> HasAddress(cs, a) || HasAddress([c], a)
    {
      assert forall d :: d in cs + [c] <==> d in cs || d in [c];
    }
    assert c in [c];
  }

  /** The elements sent: those of the last element option, then the mesh identifier. */
  ghost predicate AreElements(e: seq<byte>, cs: seq<Clause>) {
    var ies := if ElementsIn(cs).Some? then ElementsIn(cs).value else [];
    ies <= e && if MeshIdIn(cs).Some? then IsMeshElement(e[|ies|..], MeshIdIn(cs).value) else e == ies
  }

  /**
   What is put into a message that is complete: for each attribute, when it is there and what it holds.  Where
   no frequencies are given the flag for colocated channels is set, and where no names are, an empty one is put.
   */
  ghost predicate Sends(puts: seq<Put>, cs: seq<Clause>) {
    && (forall a :: PutMac(a) in puts <==> HasAddress(cs, a))
    && ((exists e :: PutIe(e) in puts) <==> ElementsIn(cs).Some? || MeshIdIn(cs).Some?)
    && (forall e :: PutIe(e) in puts ==> AreElements(e, cs))
    && ((exists l :: PutSsids(l) in puts) <==> !HasPassive(cs))
    && (forall l :: PutSsids(l) in puts ==> if HasSsid(cs) then AreNames(l, NamesIn(cs)) else l == [(1, "")])
    && ((exists l :: PutFreqs(l) in puts) <==> HasFreq(cs))
    && (forall l :: PutFreqs(l) in puts ==> AreFreqs(l, FreqsIn(cs)))
    && SendsFlags(puts, cs)
    && (forall n :: PutDuration(n) in puts <==> DurationIn(cs) != 0 && n == DurationIn(cs) % 65536)
    && (PutDurationMandatory in puts <==> DurationMandatory in cs)
  }

  ghost predicate SendsFlags(puts: seq<Put>, cs: seq<Clause>) {
    forall f :: PutFlags(f) in puts <==>
      f != {}
      && (LowPriority in f <==> FlagWord("lowpri") in cs) && (FlushScan in f <==> FlagWord("flush") in cs)
      && (ApForce in f <==> FlagWord("ap-force") in cs) && (RandomAddr in f <==> Randomised(cs))
      && (Colocated6GHz in f <==> FlagWord("coloc") in cs || !HasFreq(cs))
  }

  /** What is put, one by one. */
  ghost predicate IsPut(puts: seq<Put>, m: Memory) {
    && (forall a :: PutMac(a) in puts <==> a in m.macs)
    && (forall e :: PutIe(e) in puts <==> (m.ies.Some? || m.meshid.Some?) && e == ValueOr(m.ies) + ValueOr(m.meshid))
    && (forall l :: PutSsids(l) in puts <==> !m.passive && l == if m.haveSsids then m.ssids else m.ssids + [(1, "")])
    && (forall l :: PutFreqs(l) in puts <==> m.haveFreqs && l == m.freqs)
    && (forall f :: PutFlags(f) in puts <==>
          f != {} && f == if m.haveFreqs then m.flags else m.flags + {Colocated6GHz})
    && (forall n :: PutDuration(n) in puts <==> m.duration != 0 && n == m.duration % 0x1_0000)
    && (PutDurationMandatory in puts <==> m.mandatory)
  }

  lemma WhatIsPut(m: Memory)
    ensures IsPut(MessageOf(m), m)
  {
    hide ValueOr, When, MacPuts;
    var flags := if m.haveFreqs then m.flags else m.flags + {Colocated6GHz};
    var ie, names := PutIe(ValueOr(m.ies) + ValueOr(m.meshid)), PutSsids(if m.haveSsids then m.ssids else m.ssids + [(1, "")]);
    forall p
      ensures p in MessageOf(m) <==>
              || (p.PutMac? && p.t in m.macs) || ((m.ies.Some? || m.meshid.Some?) && p == ie)
              || (!m.passive && p == names) || (m.haveFreqs && p == PutFreqs(m.freqs))
              || (flags != {} && p == PutFlags(flags)) || (m.duration != 0 && p == PutDuration(m.duration % 0x1_0000))
              || (m.mandatory && p == PutDurationMandatory)
    {
      InMacPuts(p, m.macs);
      InWhen(m.ies.Some? || m.meshid.Some?, ie, p);
      InWhen(!m.passive, names, p);
      InWhen(m.haveFreqs, PutFreqs(m.freqs), p);
      InWhen(flags != {}, PutFlags(flags), p);
      InWhen(m.duration != 0, PutDuration(m.duration % 0x1_0000), p);
      InWhen(m.mandatory, PutDurationMandatory, p);
    }
    hide MessageOf;
  }

  lemma InMacPuts(p: Put, macs: seq<string>)
    ensures p in MacPuts(macs) <==> p.PutMac? && p.t in macs
  {
    if p.PutMac? && p.t in macs {
      var i :| 0 <= i < |macs| && macs[i] == p.t;
      assert MacPuts(macs)[i] == p;
    }
  }

  lemma NamesAreSsids(cs: seq<Clause>)
    ensures !HasSsid(cs) ==> NamesIn(cs) == []
  {
    if cs != [] {
      NamesAreSsids(cs[..|cs| - 1]);
      assert forall d :: d in cs[..|cs| - 1] ==> d in cs;
      assert cs[|cs| - 1] in cs;
    }
  }

  lemma FlagsSend(m: Memory, cs: seq<Clause>, puts: seq<Put>)
    requires AreFlags(m.flags, cs) && (m.haveFreqs <==> HasFreq(cs)) && IsPut(puts, m)
    ensures SendsFlags(puts, cs)
  {
    hide HasFreq, Randomised;
    var g := if m.haveFreqs then m.flags else m.flags + {Colocated6GHz};
    forall f: set<Flag>
      ensures PutFlags(f) in puts <==> f != {} && f == g
      ensures f == g <==>
              && (LowPriority in f <==> LowPriority in g) && (FlushScan in f <==> FlushScan in g)
              && (ApForce in f <==> ApForce in g) && (RandomAddr in f <==> RandomAddr in g)
              && (Colocated6GHz in f <==> Colocated6GHz in g)
    {
      SameFlags(f, g);
    }
    hide IsPut;
  }

  lemma SameFlags(f: set<Flag>, g: set<Flag>)
    ensures f == g <==>
            && (LowPriority in f <==> LowPriority in g) && (FlushScan in f <==> FlushScan in g)
            && (ApForce in f <==> ApForce in g) && (RandomAddr in f <==> RandomAddr in g)
            && (Colocated6GHz in f <==> Colocated6GHz in g)
  {
    if (LowPriority in f <==> LowPriority in g) && (FlushScan in f <==> FlushScan in g)
       && (ApForce in f <==> ApForce in g) && (RandomAddr in f <==> RandomAddr in g)
       && (Colocated6GHz in f <==> Colocated6GHz in g) {
      forall x: Flag
        ensures x in f <==> x in g
      {
        assert x == LowPriority || x == FlushScan || x == ApForce || x == Colocated6GHz || x == RandomAddr;
      }
    }
  }

  lemma ElementsSend(m: Memory, cs: seq<Clause>, puts: seq<Put>)
    requires IsPut(puts, m) && m.ies == ElementsIn(cs)
    requires (m.meshid.Some? <==> MeshIdIn(cs).Some?) && (m.meshid.Some? ==> IsMeshElement(m.meshid.value, MeshIdIn(cs).value))
    ensures (exists e :: PutIe(e) in puts) <==> ElementsIn(cs).Some? || MeshIdIn(cs).Some?
    ensures forall e :: PutIe(e) in puts ==> AreElements(e, cs)
  {
    hide IsMeshElement;
    var e := ValueOr(m.ies) + ValueOr(m.meshid);
    if m.ies.Some? || m.meshid.Some? {
      assert PutIe(e) in puts;
    }
    assert e[|ValueOr(m.ies)|..] == ValueOr(m.meshid);
  }

  lemma ListsSend(m: Memory, cs: seq<Clause>, puts: seq<Put>)
    requires IsPut(puts, m) && (m.passive <==> HasPassive(cs)) && (m.haveSsids <==> HasSsid(cs))
    requires (m.haveFreqs <==> HasFreq(cs)) && AreFreqs(m.freqs, FreqsIn(cs)) && AreNames(m.ssids, NamesIn(cs))
    requires !HasSsid(cs) ==> NamesIn(cs) == []
    ensures (exists l :: PutSsids(l) in puts) <==> !HasPassive(cs)
    ensures forall l :: PutSsids(l) in puts ==> if HasSsid(cs) then AreNames(l, NamesIn(cs)) else l == [(1, "")]
    ensures (exists l :: PutFreqs(l) in puts) <==> HasFreq(cs)
    ensures forall l :: PutFreqs(l) in puts ==> AreFreqs(l, FreqsIn(cs))
  {
    hide HasPassive, HasSsid, HasFreq, FreqsIn, NamesIn, UintOf;
    var names := if m.haveSsids then m.ssids else m.ssids + [(1, "")];
    assert !m.haveSsids ==> names == [(1, "")];
    if !m.passive {
      assert PutSsids(names) in puts;
    }
    if m.haveFreqs {
      assert PutFreqs(m.freqs) in puts;
    }
  }

  lemma SendsFrom(m: Memory, cs: seq<Clause>, puts: seq<Put>)
    requires Remembers(m, cs) && IsPut(puts, m) && (m.passive <==> HasPassive(cs)) && (m.haveSsids <==> HasSsid(cs))
    requires (m.mandatory <==> DurationMandatory in cs) && (!HasSsid(cs) ==> NamesIn(cs) == [])
    ensures Sends(puts, cs)
  {
    hide HasPassive, HasSsid, HasFreq, HasAddress, FreqsIn, NamesIn, ElementsIn, MeshIdIn, DurationIn;
    hide AreFlags, SendsFlags, AreFreqs, AreNames, IsMeshElement, AreElements, ValueOr;
    FlagsSend(m, cs, puts);
    ElementsSend(m, cs, puts);
    ListsSend(m, cs, puts);
  }

  /** The message of any clauses holds what they say. */
  lemma MessageSends(cs: seq<Clause>)
    requires FlagWordsKnown(cs)
    ensures Sends(MessageOf(Gather(cs)), cs)
  {
    hide Gather, MessageOf, Remembers, IsPut, Sends;
    GatherRemembers(cs);
    FlagsComeFromClauses(cs);
    WhatIsPut(Gather(cs));
    NamesAreSsids(cs);
    SendsFrom(Gather(cs), cs, MessageOf(Gather(cs)));
  }

  /** Clauses that are written, in order, have known words for flags. */
  lemma {:induction false} WrittenFlagWords(args: seq<string>, cs: seq<Clause>, rest: seq<string>)
    requires Writes(args, cs, rest)
    ensures FlagWordsKnown(cs)
  {
    hide InOrder, Words;
    if cs != [] {
      var after := args[|Words(cs[0])|..];
      WrittenFlagWords(after, cs[1..], rest);
      if cs[0].FlagWord? {
        FlagWordIs(cs[0], after);
      }
      assert forall c :: c in cs <==> c == cs[0] || c in cs[1..] by {
        assert cs == [cs[0]] + cs[1..];
      }
    }
  }

  lemma FlagWordIs(c: Clause, after: seq<string>)
    requires InOrder(c, after) && c.FlagWord?
    ensures c.t == "lowpri" || c.t == "flush" || c.t == "ap-force" || c.t == "coloc"
  {
  }

  /** So does the message for arguments that are read. */
  lemma ReadMessage(args: seq<string>, mac: string -> int)
    requires Read([], args, mac).Complete?
    ensures Sends(MessageOf(Gather(Read([], args, mac).clauses)), Read([], args, mac).clauses)
  {
    hide Read, Gather, MessageOf, Sends, Writes, FlagWordsKnown;
    var cs := Read([], args, mac).clauses;
    ReadIff(args, mac, cs);
    WrittenFlagWords(args, cs, []);
    MessageSends(cs);
  }
}
