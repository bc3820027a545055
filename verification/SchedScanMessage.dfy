/**
 The message of `parse_sched_scan` (wifi/iw/scan.c): what the clauses add to it one by one, and what it then
 holds, in terms of the clauses.
 */
module SchedScanMessage {
  import opened CNumbers
  import opened Options
  import opened SchedScan

  // ---------------------------------------------------------------- what is put into the messages

  datatype Flag = RandomAddr | Colocated6GHz | FlushScan

  /** Attributes put into the message; nested lists carry the attribute numbers of their entries. */
  datatype Put =
    | PutInterval(n: nat)
    | PutDelay(n: nat)
    | PutMac(t: string)
    | PutSsids(ssids: seq<string>)
    | PutFreqs(freqs: seq<(nat, nat)>)
    | PutMatch(matches: seq<(nat, string)>)
    | PutPlans(plans: seq<(nat, Plan)>)
    | PutFlags(flags: set<Flag>)

  /** The message and the lists collected beside it. */
  datatype Gathered = Gathered(msg: seq<Put>, ssids: seq<string>, freqs: seq<(nat, nat)>, matchset: seq<(nat, string)>,
                               plans: seq<(nat, Plan)>, flags: set<Flag>)

  function PlanAt(t: string): Plan {
    if PlanOf(t).Some? then PlanOf(t).value else Plan(0, 0)
  }

  function NumberedFreqs(l: seq<string>): seq<(nat, nat)> {
    seq(|l|, i requires 0 <= i < |l| => (i, UintOf(l[i])))
  }

  function NumberedSsids(l: seq<string>): seq<(nat, string)> {
    seq(|l|, i requires 0 <= i < |l| => (i, l[i]))
  }

  function NumberedPlans(l: seq<string>): seq<(nat, Plan)> {
    seq(|l|, i requires 0 <= i < |l| => (i + 1, PlanAt(l[i])))
  }

  /** What one clause adds: lists are numbered from zero, plans from one. */
  function AddClause(g: Gathered, c: Clause): Gathered {
    match c
    case Interval(t) => g.(msg := g.msg + [PutInterval(UintOf(t))])
    case Plans(plans) => g.(plans := g.plans + NumberedPlans(plans))
    case Delay(t) => g.(msg := g.msg + [PutDelay(UintOf(t))])
    case Matches(ssids) => g.(matchset := g.matchset + NumberedSsids(ssids))
    case Freqs(freqs) => g.(freqs := g.freqs + NumberedFreqs(freqs))
    case Active(ssids) => g.(ssids := g.ssids + ssids)
    case Passive => g
    case Randomise(t) => g.(msg := g.msg + [PutMac(if |t| >= 9 then t[9..] else [])], flags := g.flags + {RandomAddr})
    case Coloc(_) => g.(flags := g.flags + {Colocated6GHz})
    case Flush(_) => g.(flags := g.flags + {FlushScan})
  }

  function Gather(msg: seq<Put>, cs: seq<Clause>): Gathered
    decreases cs
  {
    if cs == [] then Gathered(msg, [], [], [], [], {})
    else AddClause(Gather(msg, cs[..|cs| - 1]), cs[|cs| - 1])
  }

  predicate IsPlans(c: Clause) {
    c.Plans?
  }

  predicate IsActive(c: Clause) {
    c.Active?
  }

  predicate IsPassive(c: Clause) {
    c.Passive?
  }

  function When(condition: bool, p: Put): seq<Put> {
    if condition then [p] else []
  }

  /** The lists put into the message when all arguments have been used. */
  ghost function FinalPuts(g: Gathered, cs: seq<Clause>): seq<Put> {
    When(!Has(cs, IsPassive), PutSsids(if g.ssids == [] then [""] else g.ssids))
    + When(Has(cs, IsFreqs), PutFreqs(g.freqs))
    + When(Has(cs, IsMatching), PutMatch(g.matchset))
    + When(Has(cs, IsPlans), PutPlans(g.plans))
    + When(g.flags != {}, PutFlags(g.flags))
  }

  // ---------------------------------------------------------------- one more clause

  lemma HasOneMore(cs: seq<Clause>, c: Clause, p: Clause -> bool)
    ensures Has(cs + [c], p) <==> Has(cs, p) || p(c)
  {
    if Has(cs, p) {
      var d :| d in cs && p(d);
      assert d in cs + [c];
    }
    assert c in cs + [c];
  }

  lemma OneMoreClause(msg: seq<Put>, cs: seq<Clause>, c: Clause)
    ensures Gather(msg, cs + [c]) == AddClause(Gather(msg, cs), c)
    ensures Has(cs + [c], IsSchedule) <==> Has(cs, IsSchedule) || IsSchedule(c)
    ensures Has(cs + [c], IsPlans) <==> Has(cs, IsPlans) || IsPlans(c)
    ensures Has(cs + [c], IsFreqs) <==> Has(cs, IsFreqs) || IsFreqs(c)
    ensures Has(cs + [c], IsDelaying) <==> Has(cs, IsDelaying) || IsDelaying(c)
    ensures Has(cs + [c], IsActive) <==> Has(cs, IsActive) || IsActive(c)
    ensures Has(cs + [c], IsPassive) <==> Has(cs, IsPassive) || IsPassive(c)
    ensures Has(cs + [c], IsMatching) <==> Has(cs, IsMatching) || IsMatching(c)
  {
    hide Has, AddClause;
    assert (cs + [c])[..|cs|] == cs;
    HasOneMore(cs, c, IsSchedule);
    HasOneMore(cs, c, IsPlans);
    HasOneMore(cs, c, IsFreqs);
    HasOneMore(cs, c, IsDelaying);
    HasOneMore(cs, c, IsActive);
    HasOneMore(cs, c, IsPassive);
    HasOneMore(cs, c, IsMatching);
  }

  lemma Nothing(msg: seq<Put>)
    ensures Gather(msg, []) == Gathered(msg, [], [], [], [], {})
    ensures forall p: Clause -> bool :: !Has([], p)
  {
  }

  // ---------------------------------------------------------------- what the message holds

  ghost predicate HasInterval(cs: seq<Clause>, n: nat) {
    exists c :: c in cs && c.Interval? && UintOf(c.t) == n
  }

  ghost predicate HasDelay(cs: seq<Clause>, n: nat) {
    exists c :: c in cs && c.Delay? && UintOf(c.t) == n
  }

  ghost predicate HasAddress(cs: seq<Clause>, a: string) {
    exists c :: c in cs && c.Randomise? && (if |c.t| >= 9 then c.t[9..] else []) == a
  }

  /** What clauses put at once: intervals, delays and random addresses, of exactly the clauses there are. */
  ghost predicate PutAtOnce(puts: seq<Put>, cs: seq<Clause>) {
    && (forall p :: p in puts ==> p.PutInterval? || p.PutDelay? || p.PutMac?)
    && (forall n :: PutInterval(n) in puts <==> HasInterval(cs, n))
    && (forall n :: PutDelay(n) in puts <==> HasDelay(cs, n))
    && (forall a :: PutMac(a) in puts <==> HasAddress(cs, a))
  }

  ghost predicate HasFlush(cs: seq<Clause>) {
    exists c :: c in cs && c.Flush?
  }

  ghost predicate HasColoc(cs: seq<Clause>) {
    exists c :: c in cs && c.Coloc?
  }

  ghost predicate HasRandomise(cs: seq<Clause>) {
    exists c :: c in cs && c.Randomise?
  }

  /** Exactly the flags of the clauses there are. */
  ghost predicate AreFlags(flags: set<Flag>, cs: seq<Clause>) {
    && (FlushScan in flags <==> HasFlush(cs)) && (Colocated6GHz in flags <==> HasColoc(cs))
    && (RandomAddr in flags <==> HasRandomise(cs))
  }

  /** The numbers of the arguments, counted from zero. */
  predicate AreFreqs(l: seq<(nat, nat)>, args: seq<string>) {
    |l| == |args| && forall i :: 0 <= i < |l| ==> l[i].0 == i && l[i].1 == UintOf(args[i])
  }

  predicate AreNames(l: seq<(nat, string)>, args: seq<string>) {
    |l| == |args| && forall i :: 0 <= i < |l| ==> l[i].0 == i && l[i].1 == args[i]
  }

  /** The plans of the arguments, counted from one. */
  predicate ArePlans(l: seq<(nat, Plan)>, args: seq<string>) {
    |l| == |args| && forall i :: 0 <= i < |l| ==> l[i].0 == i + 1 && PlanOf(args[i]) == Some(l[i].1)
  }

  lemma {:induction false} GatheredAtOnce(msg: seq<Put>, cs: seq<Clause>)
    ensures msg <= Gather(msg, cs).msg && PutAtOnce(Gather(msg, cs).msg[|msg|..], cs)
  {
    if cs == [] {
      Nothing(msg);
    } else {
      var n := |cs| - 1;
      var before, c := cs[..n], cs[n];
      GatheredAtOnce(msg, before);
      assert cs == before + [c];
      OneMoreClause(msg, before, c);
      AddedAtOnce(Gather(msg, before), c);
      hide Gather, AddClause, PutAtOnce;
      var was, now := Gather(msg, before).msg, Gather(msg, cs).msg;
      SplitPuts(msg, was, now);
      MoreAtOnce(was[|msg|..], before, now[|was|..], c);
    }
  }

  lemma SplitPuts(a: seq<Put>, b: seq<Put>, c: seq<Put>)
    requires a <= b <= c
    ensures a <= c && c[|a|..] == b[|a|..] + c[|b|..]
  {
  }

  lemma AddedAtOnce(g: Gathered, c: Clause)
    ensures g.msg <= AddClause(g, c).msg && PutAtOnce(AddClause(g, c).msg[|g.msg|..], [c])
  {
    hide UintOf, NumberedFreqs, NumberedSsids, NumberedPlans;
    assert c in [c];
    var more := AddClause(g, c).msg[|g.msg|..];
    assert more == match c
                   case Interval(t) => [PutInterval(UintOf(t))]
                   case Delay(t) => [PutDelay(UintOf(t))]
                   case Randomise(t) => [PutMac(if |t| >= 9 then t[9..] else [])]
                   case _ => [];
    hide AddClause;
  }

  lemma MoreAtOnce(puts: seq<Put>, cs: seq<Clause>, more: seq<Put>, c: Clause)
    requires PutAtOnce(puts, cs) && PutAtOnce(more, [c])
    ensures PutAtOnce(puts + more, cs + [c])
  {
    hide UintOf;
    forall n
      ensures HasInterval(cs + [c], n) <==> HasInterval(cs, n) || HasInterval([c], n)
      ensures HasDelay(cs + [c], n) <==> HasDelay(cs, n) || HasDelay([c], n)
    {
      assert forall d :: d in cs + [c] <==> d in cs || d in [c];
    }
    forall a
      ensures HasAddress(cs + [c], a) <==> HasAddress(cs, a) || HasAddress([c], a)
    {
      assert forall d :: d in cs + [c] <==> d in cs || d in [c];
    }
    hide HasInterval, HasDelay, HasAddress;
  }

  lemma {:induction false} GatheredFlags(msg: seq<Put>, cs: seq<Clause>)
    ensures AreFlags(Gather(msg, cs).flags, cs)
  {
    if cs != [] {
      var n := |cs| - 1;
      var before, c := cs[..n], cs[n];
      GatheredFlags(msg, before);
      assert cs == before + [c];
      OneMoreClause(msg, before, c);
      AddedFlags(Gather(msg, before), c);
      hide Gather, AddClause;
      assert forall d :: d in cs <==> d in before || d == c;
    }
  }

  lemma AddedFlags(g: Gathered, c: Clause)
    ensures var f := AddClause(g, c).flags;
            && (FlushScan in f <==> FlushScan in g.flags || c.Flush?)
            && (Colocated6GHz in f <==> Colocated6GHz in g.flags || c.Coloc?)
            && (RandomAddr in f <==> RandomAddr in g.flags || c.Randomise?)
  {
    hide UintOf, NumberedFreqs, NumberedSsids, NumberedPlans;
  }

  // ---------------------------------------------------------------- the lists

  lemma {:induction false} CompatiblePrefix(before: seq<Clause>, cs: seq<Clause>, k: nat)
    requires AllCompatible(before, cs) && k <= |cs|
    ensures AllCompatible(before, cs[..k])
    decreases k
  {
    hide Compatible;
    if k > 0 {
      CompatiblePrefix(before + [cs[0]], cs[1..], k - 1);
      assert cs[..k][1..] == cs[1..][..k - 1];
    }
  }

  /** Clauses that cannot both be read: at most one of them is. */
  lemma NoneBefore(cs: seq<Clause>, k: nat)
    requires AllCompatible([], cs) && k < |cs|
    ensures IsSchedule(cs[k]) ==> !Has(cs[..k], IsSchedule)
    ensures cs[k].Matches? ==> !Has(cs[..k], IsMatching)
    ensures IsFreqs(cs[k]) ==> !Has(cs[..k], IsFreqs)
    ensures IsMode(cs[k]) ==> !Has(cs[..k], IsMode)
  {
    CompatibleAt([], cs, k);
    assert [] + cs[..k] == cs[..k];
  }

  /** The lists are those of the clauses, of which there is at most one for each list. */
  ghost predicate AreLists(g: Gathered, cs: seq<Clause>) {
    && (forall c :: c in cs && c.Freqs? ==> AreFreqs(g.freqs, c.freqs))
    && (forall c :: c in cs && c.Active? ==> g.ssids == c.ssids)
    && (forall c :: c in cs && c.Matches? && c.ssids != [] ==> AreNames(g.matchset, c.ssids))
    && (forall c :: c in cs && c.Plans? ==> ArePlans(g.plans, c.plans))
    && (!Has(cs, IsFreqs) ==> g.freqs == []) && (!Has(cs, IsMode) ==> g.ssids == [])
    && (!Has(cs, IsMatching) ==> g.matchset == []) && (!Has(cs, IsSchedule) ==> g.plans == [])
  }

  /** Every token of a clause of plans is a plan. */
  ghost predicate PlansParse(cs: seq<Clause>) {
    forall c :: c in cs && c.Plans? ==> forall i :: 0 <= i < |c.plans| ==> PlanOf(c.plans[i]).Some?
  }

  lemma {:induction false} GatheredLists(msg: seq<Put>, cs: seq<Clause>)
    requires AllCompatible([], cs) && PlansParse(cs)
    ensures AreLists(Gather(msg, cs), cs)
  {
    hide Compatible, PlanOf;
    if cs == [] {
      Nothing(msg);
    } else {
      var n := |cs| - 1;
      var before, c := cs[..n], cs[n];
      assert cs == before + [c];
      CompatiblePrefix([], cs, n);
      assert PlansParse(before) by {
        assert forall d :: d in before ==> d in cs;
      }
      GatheredLists(msg, before);
      OneMoreClause(msg, before, c);
      NoneBefore(cs, n);
      HasMode(before);
      hide Gather;
      assert c in cs;
      AddedToLists(Gather(msg, before), before, c);
    }
  }

  lemma HasMode(cs: seq<Clause>)
    ensures Has(cs, IsMode) <==> Has(cs, IsActive) || Has(cs, IsPassive)
  {
  }

  lemma AddedToLists(g: Gathered, cs: seq<Clause>, c: Clause)
    requires AreLists(g, cs)
    requires IsSchedule(c) ==> !Has(cs, IsSchedule)
    requires c.Matches? ==> !Has(cs, IsMatching)
    requires IsFreqs(c) ==> !Has(cs, IsFreqs)
    requires IsMode(c) ==> !Has(cs, IsMode)
    requires c.Plans? ==> forall i :: 0 <= i < |c.plans| ==> PlanOf(c.plans[i]).Some?
    ensures AreLists(AddClause(g, c), cs + [c])
  {
    var h, ds := AddClause(g, c), cs + [c];
    HasOneMore(cs, c, IsFreqs);
    HasOneMore(cs, c, IsMode);
    HasOneMore(cs, c, IsMatching);
    HasOneMore(cs, c, IsSchedule);
    ListsOfAdded(g, c);
    hide AddClause, UintOf, PlanOf, AreFreqs, AreNames, ArePlans;
    forall d | d in cs
      ensures d.Freqs? ==> IsFreqs(d) && Has(cs, IsFreqs)
      ensures d.Active? ==> IsMode(d) && Has(cs, IsMode)
      ensures d.Matches? && d.ssids != [] ==> IsMatching(d) && Has(cs, IsMatching)
      ensures d.Plans? ==> IsSchedule(d) && Has(cs, IsSchedule)
    {
    }
    hide Has;
    assert forall d :: d in ds <==> d in cs || d == c;
  }

  /** What one clause does to lists that are empty; all others stay. */
  lemma ListsOfAdded(g: Gathered, c: Clause)
    requires c.Plans? ==> forall i :: 0 <= i < |c.plans| ==> PlanOf(c.plans[i]).Some?
    ensures var h := AddClause(g, c);
            && (if c.Freqs? then g.freqs == [] ==> AreFreqs(h.freqs, c.freqs) else h.freqs == g.freqs)
            && (if c.Active? then g.ssids == [] ==> h.ssids == c.ssids else h.ssids == g.ssids)
            && (if c.Matches? then g.matchset == [] ==> AreNames(h.matchset, c.ssids) else h.matchset == g.matchset)
            && (c.Matches? && c.ssids == [] ==> h.matchset == g.matchset)
            && (if c.Plans? then g.plans == [] ==> ArePlans(h.plans, c.plans) else h.plans == g.plans)
  {
    hide UintOf, PlanOf;
    match c
    case Freqs(l) => assert [] + NumberedFreqs(l) == NumberedFreqs(l);
    case Matches(l) => assert [] + NumberedSsids(l) == NumberedSsids(l) && (l == [] ==> g.matchset + NumberedSsids(l) == g.matchset);
    case Plans(l) => assert [] + NumberedPlans(l) == NumberedPlans(l);
    case Active(l) => assert [] + l == l;
    case _ =>
  }

  // ---------------------------------------------------------------- the whole message

  /** What is put for clauses when all arguments have been used: for each attribute, when it is there and what it holds. */
  ghost predicate Sends(puts: seq<Put>, cs: seq<Clause>) {
    && (forall n :: PutInterval(n) in puts <==> HasInterval(cs, n))
    && (forall n :: PutDelay(n) in puts <==> HasDelay(cs, n))
    && (forall a :: PutMac(a) in puts <==> HasAddress(cs, a))
    && SendsLists(puts, cs)
  }

  ghost predicate SendsLists(puts: seq<Put>, cs: seq<Clause>) {
    SendsFlags(puts, cs) && SendsFreqs(puts, cs) && SendsMatch(puts, cs) && SendsPlans(puts, cs) && SendsNames(puts, cs)
  }

  ghost predicate SendsFlags(puts: seq<Put>, cs: seq<Clause>) {
    && ((exists f :: PutFlags(f) in puts) <==> HasFlush(cs) || HasColoc(cs) || HasRandomise(cs))
    && (forall f :: PutFlags(f) in puts ==> AreFlags(f, cs))
  }

  ghost predicate SendsFreqs(puts: seq<Put>, cs: seq<Clause>) {
    && ((exists l :: PutFreqs(l) in puts) <==> Has(cs, IsFreqs))
    && (forall l, c :: PutFreqs(l) in puts && c in cs && c.Freqs? ==> AreFreqs(l, c.freqs))
  }

  ghost predicate SendsMatch(puts: seq<Put>, cs: seq<Clause>) {
    && ((exists l :: PutMatch(l) in puts) <==> Has(cs, IsMatching))
    && (forall l, c :: PutMatch(l) in puts && c in cs && c.Matches? && c.ssids != [] ==> AreNames(l, c.ssids))
  }

  ghost predicate SendsPlans(puts: seq<Put>, cs: seq<Clause>) {
    && ((exists l :: PutPlans(l) in puts) <==> Has(cs, IsPlans))
    && (forall l, c :: PutPlans(l) in puts && c in cs && c.Plans? ==> ArePlans(l, c.plans))
  }

  /** An empty name stands for a list without names. */
  ghost predicate SendsNames(puts: seq<Put>, cs: seq<Clause>) {
    && ((exists l :: PutSsids(l) in puts) <==> !Has(cs, IsPassive))
    && (forall l, c :: PutSsids(l) in puts && c in cs && c.Active? ==> l == if c.ssids == [] then [""] else c.ssids)
    && (forall l :: PutSsids(l) in puts && !Has(cs, IsActive) ==> l == [""])
  }

  /** There is one list of each kind, and one set of flags. */
  ghost predicate IsPut(puts: seq<Put>, g: Gathered, cs: seq<Clause>) {
    && (forall l :: PutFreqs(l) in puts <==> l == g.freqs && Has(cs, IsFreqs))
    && (forall l :: PutMatch(l) in puts <==> l == g.matchset && Has(cs, IsMatching))
    && (forall l :: PutPlans(l) in puts <==> l == g.plans && Has(cs, IsPlans))
    && (forall l :: PutSsids(l) in puts <==> l == (if g.ssids == [] then [""] else g.ssids) && !Has(cs, IsPassive))
    && (forall f :: PutFlags(f) in puts <==> f == g.flags && g.flags != {})
  }

  lemma FinalPutsSend(g: Gathered, cs: seq<Clause>, puts: seq<Put>)
    requires AreLists(g, cs) && AreFlags(g.flags, cs) && IsPut(puts, g, cs)
    ensures SendsLists(puts, cs)
  {
    hide Has, HasFlush, HasColoc, HasRandomise, AreFreqs, AreNames, ArePlans;
    FlagsSend(g, cs, puts);
    NamesSend(g, cs, puts);
    hide AreFlags;
    if Has(cs, IsFreqs) {
      assert PutFreqs(g.freqs) in puts;
    }
    if Has(cs, IsMatching) {
      assert PutMatch(g.matchset) in puts;
    }
    if Has(cs, IsPlans) {
      assert PutPlans(g.plans) in puts;
    }
  }

  lemma FlagsSend(g: Gathered, cs: seq<Clause>, puts: seq<Put>)
    requires AreFlags(g.flags, cs) && forall f :: PutFlags(f) in puts <==> f == g.flags && g.flags != {}
    ensures SendsFlags(puts, cs)
  {
    hide HasFlush, HasColoc, HasRandomise;
    SomeFlag(g.flags);
    if g.flags != {} {
      assert PutFlags(g.flags) in puts;
    }
  }

  lemma NamesSend(g: Gathered, cs: seq<Clause>, puts: seq<Put>)
    requires AreLists(g, cs)
    requires forall l :: PutSsids(l) in puts <==> l == (if g.ssids == [] then [""] else g.ssids) && !Has(cs, IsPassive)
    ensures SendsNames(puts, cs)
  {
    HasMode(cs);
    hide Has, AreFreqs, AreNames, ArePlans;
    var names := if g.ssids == [] then [""] else g.ssids;
    if !Has(cs, IsPassive) {
      assert PutSsids(names) in puts;
    }
  }

  lemma SomeFlag(f: set<Flag>)
    ensures f != {} <==> FlushScan in f || Colocated6GHz in f || RandomAddr in f
  {
    if f != {} {
      var x :| x in f;
      assert x == FlushScan || x == Colocated6GHz || x == RandomAddr;
    }
  }

  /** Membership, put by put. */
  lemma WhatIsPut(g: Gathered, cs: seq<Clause>)
    ensures forall p :: p in FinalPuts(g, cs) <==>
              || (p == PutSsids(if g.ssids == [] then [""] else g.ssids) && !Has(cs, IsPassive))
              || (p == PutFreqs(g.freqs) && Has(cs, IsFreqs)) || (p == PutMatch(g.matchset) && Has(cs, IsMatching))
              || (p == PutPlans(g.plans) && Has(cs, IsPlans)) || (p == PutFlags(g.flags) && g.flags != {})
  {
    hide Has;
  }

  /** The message after all arguments. */
  lemma WholeMessage(msg: seq<Put>, cs: seq<Clause>)
    requires AllCompatible([], cs) && PlansParse(cs)
    ensures var g := Gather(msg, cs);
            var whole := g.msg + FinalPuts(g, cs);
            msg <= whole && Sends(whole[|msg|..], cs)
  {
    hide HasInterval, HasDelay, HasAddress, SendsLists, IsPut, AllCompatible, PlansParse;
    var g := Gather(msg, cs);
    GatheredAtOnce(msg, cs);
    GatheredLists(msg, cs);
    GatheredFlags(msg, cs);
    WhatIsPut(g, cs);
    hide Gather, FinalPuts, AreLists, AreFlags, PutAtOnce, Has;
    var first, final := g.msg[|msg|..], FinalPuts(g, cs);
    assert (g.msg + final)[|msg|..] == first + final;
    BothParts(first, final, g, cs);
    FinalPutsSend(g, cs, first + final);
  }

  lemma BothParts(first: seq<Put>, final: seq<Put>, g: Gathered, cs: seq<Clause>)
    requires PutAtOnce(first, cs)
    requires forall p :: p in final <==>
               || (p == PutSsids(if g.ssids == [] then [""] else g.ssids) && !Has(cs, IsPassive))
               || (p == PutFreqs(g.freqs) && Has(cs, IsFreqs)) || (p == PutMatch(g.matchset) && Has(cs, IsMatching))
               || (p == PutPlans(g.plans) && Has(cs, IsPlans)) || (p == PutFlags(g.flags) && g.flags != {})
    ensures IsPut(first + final, g, cs)
    ensures forall n :: PutInterval(n) in first + final <==> HasInterval(cs, n)
    ensures forall n :: PutDelay(n) in first + final <==> HasDelay(cs, n)
    ensures forall a :: PutMac(a) in first + final <==> HasAddress(cs, a)
  {
    hide Has, HasInterval, HasDelay, HasAddress;
    assert forall p :: p in first + final <==> p in first || p in final;
  }

  lemma {:induction false} WrittenPlansParse(args: seq<string>, cs: seq<Clause>, rest: seq<string>)
    requires Writes(args, cs, rest)
    ensures PlansParse(cs)
  {
    hide Writes, InOrder;
    forall c | c in cs && c.Plans?
      ensures forall i :: 0 <= i < |c.plans| ==> PlanOf(c.plans[i]).Some?
    {
      var k :| 0 <= k < |cs| && cs[k] == c;
      InOrderAt(args, cs, rest, k);
      var after :| InOrder(c, after);
      OrderedPlansParse(c, after);
    }
  }

  lemma OrderedPlansParse(c: Clause, after: seq<string>)
    requires InOrder(c, after) && c.Plans?
    ensures forall i :: 0 <= i < |c.plans| ==> PlanOf(c.plans[i]).Some?
  {
    hide PlanOf;
  }

  /** What is sent for arguments that are read: at once only, where arguments are left over. */
  ghost predicate IsMessageOf(msg: seq<Put>, msg0: seq<Put>, r: Reading)
    requires r.Done?
  {
    && msg0 <= msg
    && if r.rest == [] then Sends(msg[|msg0|..], r.clauses) else PutAtOnce(msg[|msg0|..], r.clauses)
  }

  lemma ReadMessage(msg: seq<Put>, args: seq<string>, mac: string -> int)
    requires Read([], args, mac).Done?
    ensures var r := Read([], args, mac);
            var g := Gather(msg, r.clauses);
            IsMessageOf(g.msg + if r.rest == [] then FinalPuts(g, r.clauses) else [], msg, r)
  {
    hide Read, Gather, FinalPuts, Sends, PutAtOnce, Writes, AllCompatible, PlansParse;
    var r := Read([], args, mac);
    assert [] + r.clauses == r.clauses;
    ReadIff([], args, mac, r.clauses, r.rest);
    WrittenPlansParse(args, r.clauses, r.rest);
    GatheredAtOnce(msg, r.clauses);
    WholeMessage(msg, r.clauses);
    assert Gather(msg, r.clauses).msg + [] == Gather(msg, r.clauses).msg;
  }
}
