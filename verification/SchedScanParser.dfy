/** The loop of `parse_sched_scan` (wifi/iw/scan.c), proved to follow the reading of module SchedScan. */
module SchedScanParser {
  import opened CNumbers
  import opened Options
  import opened SchedScan
  import opened SchedScanMessage

  // ---------------------------------------------------------------- the variables of the loop

  datatype ParseState = TopLevel | InMatch | InFreqs | InActive | InPlans

  /** The variables that remember what has been read. */
  datatype Memory = Memory(interval: nat, delay: nat, haveMatchset: bool, haveFreqs: bool, haveSsids: bool,
                           haveActive: bool, havePassive: bool, havePlans: bool, g: Gathered)

  datatype Vars = Vars(c: nat, v: seq<string>, state: ParseState, i: nat, m: Memory)

  /** `argc` and `argv` have moved together. */
  predicate Lockstep(c: nat, v: seq<string>, args: seq<string>) {
    |v| == c <= |args| && v == args[|args| - c..]
  }

  lemma ArgsLeft(c: nat, v: seq<string>, args: seq<string>)
    requires Lockstep(c, v, args)
    ensures |v| == c
  {
  }

  lemma Suffix(c: nat, v: seq<string>, args: seq<string>)
    requires Lockstep(c, v, args)
    ensures |v| == c <= |args| && v == args[|args| - c..]
  {
  }

  lemma Advance(c: nat, v: seq<string>, args: seq<string>)
    requires Lockstep(c, v, args) && c > 0
    ensures |v| == c && Lockstep(c - 1, v[1..], args)
  {
  }

  /** The clauses read, with the one being read and its list items `part` so far. */
  function With(before: seq<Clause>, state: ParseState, part: seq<string>): seq<Clause> {
    match state
    case TopLevel => before
    case InMatch => before + [Matches(part)]
    case InFreqs => before + [Freqs(part)]
    case InActive => before + [Active(part)]
    case InPlans => before + [Plans(part)]
  }

  /** What is read from here on. */
  ghost function Resume(state: ParseState, part: seq<string>, before: seq<Clause>, v: seq<string>, mac: string -> int): Reading {
    match state
    case TopLevel => Read(before, v, mac)
    case InMatch =>
      var l := SsidPairs(v);
      if ListEnds(part + l == [], v[2 * |l|..]) then Read(before + [Matches(part + l)], v[2 * |l|..], mac) else Failed(-EINVAL)
    case InActive =>
      var l := SsidPairs(v);
      if ListEnds(part + l == [], v[2 * |l|..]) then Read(before + [Active(part + l)], v[2 * |l|..], mac) else Failed(-EINVAL)
    case InFreqs =>
      var n := Decimals(v);
      if n == |v| || part + v[..n] != [] then Read(before + [Freqs(part + v[..n])], v[n..], mac) else Failed(-EINVAL)
    case InPlans =>
      match PlanTokens(v)
      case None => Failed(-EINVAL)
      case Some(l) => Read(before + [Plans(part + l)], v[|l|..], mac)
  }

  /** The flags and lists are those of the clauses read so far. */
  ghost predicate Tracks(m: Memory, msg: seq<Put>, cs: seq<Clause>) {
    && m.g == Gather(msg, cs)
    && ((m.interval != 0 || m.havePlans) <==> Has(cs, IsSchedule))
    && (m.havePlans <==> Has(cs, IsPlans))
    && (m.haveFreqs <==> Has(cs, IsFreqs))
    && (m.delay != 0 <==> Has(cs, IsDelaying))
    && (m.haveActive <==> Has(cs, IsActive))
    && (m.havePassive <==> Has(cs, IsPassive))
    && (m.haveMatchset <==> Has(cs, IsMatching))
    && (m.haveSsids <==> m.g.ssids != [])
  }

  /** What stays the same over the whole parse. */
  datatype Input = Input(msg: seq<Put>, args: seq<string>, mac: string -> int)

  ghost predicate Inv(s: Vars, input: Input, before: seq<Clause>, part: seq<string>) {
    && Lockstep(s.c, s.v, input.args)
    && Read([], input.args, input.mac) == Resume(s.state, part, before, s.v, input.mac)
    && Tracks(s.m, input.msg, With(before, s.state, part))
    && (s.state != TopLevel ==> s.i == |part|)
  }

  // ---------------------------------------------------------------- one more clause, one more item

  lemma TopLevelResumes(before: seq<Clause>, part: seq<string>, v: seq<string>, mac: string -> int)
    ensures Resume(TopLevel, part, before, v, mac) == Read(before, v, mac)
  {
  }

  /** The end of the arguments ends every list. */
  lemma AtTheEnd(state: ParseState, part: seq<string>, before: seq<Clause>, mac: string -> int)
    ensures Resume(state, part, before, [], mac) == Done(With(before, state, part), [])
  {
    assert part + [] == part;
  }

  lemma FreqStep(part: seq<string>, before: seq<Clause>, v: seq<string>, mac: string -> int)
    requires v != []
    ensures Resume(InFreqs, part, before, v, mac) ==
            if IsDecimal(v[0]) then Resume(InFreqs, part + [v[0]], before, v[1..], mac)
            else if part == [] then Failed(-EINVAL)
            else Read(before + [Freqs(part)], v, mac)
  {
    hide Read, IsDecimal;
    if IsDecimal(v[0]) {
      var n := Decimals(v[1..]);
      assert part + v[..n + 1] == part + [v[0]] + v[1..][..n];
      assert v[n + 1..] == v[1..][n..];
    } else {
      assert part + v[..0] == part && v[0..] == v;
    }
  }

  lemma MatchStep(part: seq<string>, before: seq<Clause>, v: seq<string>, mac: string -> int)
    requires v != []
    ensures Resume(InMatch, part, before, v, mac) ==
            if v[0] != "ssid" then (if part == [] then Failed(-EINVAL) else Read(before + [Matches(part)], v, mac))
            else if |v| == 1 then Failed(-EINVAL)
            else Resume(InMatch, part + [v[1]], before, v[2..], mac)
  {
    hide Read;
    if v[0] == "ssid" && |v| > 1 {
      var l := SsidPairs(v[2..]);
      assert part + ([v[1]] + l) == part + [v[1]] + l;
      assert v[2 * (1 + |l|)..] == v[2..][2 * |l|..];
    } else {
      assert part + [] == part && v[0..] == v;
    }
  }

  lemma ActiveStep(part: seq<string>, before: seq<Clause>, v: seq<string>, mac: string -> int)
    requires v != []
    ensures Resume(InActive, part, before, v, mac) ==
            if v[0] != "ssid" then (if part == [] then Failed(-EINVAL) else Read(before + [Active(part)], v, mac))
            else if |v| == 1 then Failed(-EINVAL)
            else Resume(InActive, part + [v[1]], before, v[2..], mac)
  {
    hide Read;
    if v[0] == "ssid" && |v| > 1 {
      var l := SsidPairs(v[2..]);
      assert part + ([v[1]] + l) == part + [v[1]] + l;
      assert v[2 * (1 + |l|)..] == v[2..][2 * |l|..];
    } else {
      assert part + [] == part && v[0..] == v;
    }
  }

  lemma PlanStep(part: seq<string>, before: seq<Clause>, v: seq<string>, mac: string -> int)
    requires v != []
    ensures Resume(InPlans, part, before, v, mac) ==
            if PlanOf(v[0]).None? then Failed(-EINVAL)
            else if PlanOf(v[0]).value.iterations == 0 then Read(before + [Plans(part + [v[0]])], v[1..], mac)
            else Resume(InPlans, part + [v[0]], before, v[1..], mac)
  {
    hide Read, PlanOf;
    if PlanOf(v[0]).Some? && PlanOf(v[0]).value.iterations != 0 && PlanTokens(v[1..]).Some? {
      var l := PlanTokens(v[1..]).value;
      assert part + ([v[0]] + l) == part + [v[0]] + l;
      assert v[1 + |l|..] == v[1..][|l|..];
    }
  }

  // ---------------------------------------------------------------- one more item in the memory

  lemma OneMoreMatch(m: Memory, msg: seq<Put>, before: seq<Clause>, part: seq<string>, t: string)
    requires Tracks(m, msg, before + [Matches(part)])
    ensures Tracks(m.(g := m.g.(matchset := m.g.matchset + [(|part|, t)]), haveMatchset := true), msg,
                   before + [Matches(part + [t])])
  {
    hide Gather, Has;
    OneMoreClause(msg, before, Matches(part));
    OneMoreClause(msg, before, Matches(part + [t]));
    assert NumberedSsids(part + [t]) == NumberedSsids(part) + [(|part|, t)];
  }

  lemma OneMoreFreq(m: Memory, msg: seq<Put>, before: seq<Clause>, part: seq<string>, t: string)
    requires Tracks(m, msg, before + [Freqs(part)])
    ensures Tracks(m.(g := m.g.(freqs := m.g.freqs + [(|part|, UintOf(t))])), msg, before + [Freqs(part + [t])])
  {
    hide Gather, Has, UintOf;
    OneMoreClause(msg, before, Freqs(part));
    OneMoreClause(msg, before, Freqs(part + [t]));
    assert NumberedFreqs(part + [t]) == NumberedFreqs(part) + [(|part|, UintOf(t))];
  }

  lemma OneMoreSsid(m: Memory, msg: seq<Put>, before: seq<Clause>, part: seq<string>, t: string)
    requires Tracks(m, msg, before + [Active(part)])
    ensures Tracks(m.(g := m.g.(ssids := m.g.ssids + [t]), haveSsids := true), msg, before + [Active(part + [t])])
  {
    hide Gather, Has;
    OneMoreClause(msg, before, Active(part));
    OneMoreClause(msg, before, Active(part + [t]));
  }

  lemma OneMorePlan(m: Memory, msg: seq<Put>, before: seq<Clause>, part: seq<string>, t: string, interval: nat)
    requires Tracks(m, msg, before + [Plans(part)])
    ensures Tracks(m.(g := m.g.(plans := m.g.plans + [(|part| + 1, PlanAt(t))]), interval := interval), msg,
                   before + [Plans(part + [t])])
  {
    hide Gather, Has, PlanAt;
    OneMoreClause(msg, before, Plans(part));
    OneMoreClause(msg, before, Plans(part + [t]));
    assert NumberedPlans(part + [t]) == NumberedPlans(part) + [(|part| + 1, PlanAt(t))];
  }

  /** The memory after a whole clause. */
  lemma TracksClause(m: Memory, n: Memory, msg: seq<Put>, cs: seq<Clause>, c: Clause)
    requires Tracks(m, msg, cs)
    requires n.g == AddClause(m.g, c)
    requires (n.interval != 0 || n.havePlans) <==> (m.interval != 0 || m.havePlans || IsSchedule(c))
    requires (n.havePlans <==> m.havePlans || IsPlans(c)) && (n.haveFreqs <==> m.haveFreqs || IsFreqs(c))
    requires n.delay != 0 <==> m.delay != 0 || IsDelaying(c)
    requires (n.haveActive <==> m.haveActive || IsActive(c)) && (n.havePassive <==> m.havePassive || IsPassive(c))
    requires (n.haveMatchset <==> m.haveMatchset || IsMatching(c)) && (n.haveSsids <==> n.g.ssids != [])
    ensures Tracks(n, msg, cs + [c])
  {
    hide Gather, Has, AddClause;
    OneMoreClause(msg, cs, c);
  }

  lemma EmptyLists(g: Gathered)
    ensures AddClause(g, Plans([])) == AddClause(g, Matches([])) == AddClause(g, Freqs([])) == AddClause(g, Active([])) == g
  {
    assert g.plans + [] == g.plans && g.matchset + [] == g.matchset && g.freqs + [] == g.freqs && g.ssids + [] == g.ssids;
    assert NumberedPlans([]) == [] && NumberedSsids([]) == [] && NumberedFreqs([]) == [];
  }

  // ---------------------------------------------------------------- what the word at the head means

  lemma NotOurs(before: seq<Clause>, v: seq<string>, mac: string -> int)
    requires v != [] && KindOf(v[0]) == Foreign
    ensures Read(before, v, mac) == Done(before, v)
  {
  }

  /** One step of the reading, whatever the clause. */
  lemma ReadHere(before: seq<Clause>, v: seq<string>, mac: string -> int)
    requires v != [] && KindOf(v[0]) != Foreign
    ensures var r := ReadClause(v);
            Read(before, v, mac) ==
            if r.None? || !Compatible(before, r.value) then Failed(-EINVAL)
            else if r.value.Randomise? && mac(r.value.t[9..]) != 0 then Failed(mac(r.value.t[9..]))
            else Read(before + [r.value], v[|Words(r.value)|..], mac)
  {
    hide ReadClause, Compatible, Words, KindOf;
  }

  lemma IntervalStep(before: seq<Clause>, v: seq<string>, mac: string -> int)
    requires v != [] && KindOf(v[0]) == KInterval
    ensures Read(before, v, mac) ==
            if |v| > 1 && !Has(before, IsSchedule) && IsDecimal(v[1]) && UintOf(v[1]) != 0
            then Read(before + [Interval(v[1])], v[2..], mac) else Failed(-EINVAL)
  {
    hide KindOf, Has, IsDecimal, UintOf;
  }

  lemma DelayStep(before: seq<Clause>, v: seq<string>, mac: string -> int)
    requires v != [] && KindOf(v[0]) == KDelay
    ensures Read(before, v, mac) ==
            if |v| > 1 && !Has(before, IsDelaying) && IsDecimal(v[1])
            then Read(before + [Delay(v[1])], v[2..], mac) else Failed(-EINVAL)
  {
    hide KindOf, Has, IsDecimal, UintOf;
  }

  lemma PlansBegin(before: seq<Clause>, v: seq<string>, mac: string -> int)
    requires v != [] && KindOf(v[0]) == KPlans
    ensures Read(before, v, mac) ==
            if Has(before, IsSchedule) then Failed(-EINVAL) else Resume(InPlans, [], before, v[1..], mac)
  {
    hide Read, KindOf, Has, SsidPairs, PlanTokens, Decimals, IsDecimal, UintOf, ListEnds, Pairs;
    hide INTERVAL, SCAN_PLANS, DELAY, MATCHES, FREQS, ACTIVE, PASSIVE;
    ReadHere(before, v, mac);
    var tail := v[1..];
    assert ReadClause(v) == if PlanTokens(tail).Some? then Some(Plans(PlanTokens(tail).value)) else None;
    hide ReadClause;
    if PlanTokens(tail).Some? {
      var l := PlanTokens(tail).value;
      assert [] + l == l && v[1 + |l|..] == tail[|l|..];
    }
  }

  lemma MatchesBegin(before: seq<Clause>, v: seq<string>, mac: string -> int)
    requires v != [] && KindOf(v[0]) == KMatches
    ensures Read(before, v, mac) ==
            if Has(before, IsMatching) then Failed(-EINVAL) else Resume(InMatch, [], before, v[1..], mac)
  {
    hide Read, KindOf, Has, SsidPairs, PlanTokens, Decimals, IsDecimal, UintOf, ListEnds, Pairs;
    hide INTERVAL, SCAN_PLANS, DELAY, MATCHES, FREQS, ACTIVE, PASSIVE;
    ReadHere(before, v, mac);
    var tail := v[1..];
    var l := SsidPairs(tail);
    assert [] + l == l && v[1 + 2 * |l|..] == tail[2 * |l|..];
  }

  lemma FreqsBegin(before: seq<Clause>, v: seq<string>, mac: string -> int)
    requires v != [] && KindOf(v[0]) == KFreqs
    ensures Read(before, v, mac) ==
            if Has(before, IsFreqs) then Failed(-EINVAL) else Resume(InFreqs, [], before, v[1..], mac)
  {
    hide Read, KindOf, Has, SsidPairs, PlanTokens, Decimals, IsDecimal, UintOf, ListEnds, Pairs;
    hide INTERVAL, SCAN_PLANS, DELAY, MATCHES, FREQS, ACTIVE, PASSIVE;
    ReadHere(before, v, mac);
    var tail := v[1..];
    var n := Decimals(tail);
    var l := tail[..n];
    assert [] + l == l && |l| == n && v[1 + n..] == tail[n..];
    assert ReadClause(v) == if n == |tail| || n > 0 then Some(Freqs(l)) else None;
    assert |Words(Freqs(l))| == 1 + n;
    hide ReadClause, Words;
  }

  lemma ActiveBegin(before: seq<Clause>, v: seq<string>, mac: string -> int)
    requires v != [] && KindOf(v[0]) == KActive
    ensures Read(before, v, mac) ==
            if Has(before, IsMode) then Failed(-EINVAL) else Resume(InActive, [], before, v[1..], mac)
  {
    hide Read, KindOf, Has, SsidPairs, PlanTokens, Decimals, IsDecimal, UintOf, ListEnds, Pairs;
    hide INTERVAL, SCAN_PLANS, DELAY, MATCHES, FREQS, ACTIVE, PASSIVE;
    ReadHere(before, v, mac);
    var tail := v[1..];
    var l := SsidPairs(tail);
    assert [] + l == l && v[1 + 2 * |l|..] == tail[2 * |l|..];
  }

  lemma WordStep(before: seq<Clause>, v: seq<string>, mac: string -> int)
    requires v != []
    ensures KindOf(v[0]) == KPassive ==>
              Read(before, v, mac) ==
              if Has(before, IsMode) then Failed(-EINVAL) else Read(before + [Passive], v[1..], mac)
    ensures KindOf(v[0]) == KRandomise ==>
              |v[0]| >= 9 &&
              Read(before, v, mac) ==
              if mac(v[0][9..]) != 0 then Failed(mac(v[0][9..])) else Read(before + [Randomise(v[0])], v[1..], mac)
    ensures KindOf(v[0]) == KColoc ==> Read(before, v, mac) == Read(before + [Coloc(v[0])], v[1..], mac)
    ensures KindOf(v[0]) == KFlush ==> Read(before, v, mac) == Read(before + [Flush(v[0])], v[1..], mac)
  {
    hide Read, KindOf, Has, IsDecimal, UintOf, INTERVAL, SCAN_PLANS, DELAY, MATCHES, FREQS, ACTIVE, PASSIVE;
    WordOfKind(v[0]);
    if KindOf(v[0]) != Foreign {
      ReadHere(before, v, mac);
    }
  }

  // ---------------------------------------------------------------- the cases of the loop

  /** How one turn of the loop ends. */
  datatype Turn = Again | Stop(err: int)

  /** What a turn that stops leaves: the error, or the clauses read and the argument that is not ours. */
  ghost predicate Stopped(s: Vars, input: Input, before: seq<Clause>, err: int) {
    && Lockstep(s.c, s.v, input.args)
    && (if err != 0 then Read([], input.args, input.mac) == Failed(err)
        else s.c > 0 && Read([], input.args, input.mac) == Done(before, s.v) && s.m.g == Gather(input.msg, before))
  }

  method TurnMatch(s0: Vars, input: Input, ghost before0: seq<Clause>, ghost part0: seq<string>)
      returns (turn: Turn, s: Vars, ghost before: seq<Clause>, ghost part: seq<string>)
    requires Inv(s0, input, before0, part0) && s0.state == InMatch && s0.c > 0
    ensures turn.Again? ==> Inv(s, input, before, part) && s.c <= s0.c && (s.c == s0.c ==> s.state == TopLevel)
    ensures turn.Again? && s.state == TopLevel ==> part == []
    ensures turn.Stop? ==> Stopped(s, input, before, turn.err)
  {
    hide Read, Resume, Tracks, Lockstep;
    s, before, part := s0, before0, part0;
    ArgsLeft(s.c, s.v, input.args);
    MatchStep(part, before, s.v, input.mac);
    if s.v[0] == "ssid" {
      Advance(s.c, s.v, input.args);
      s := s.(c := s.c - 1, v := s.v[1..]);
      if s.c == 0 {
        return Stop(-EINVAL), s, before, part;
      }
      OneMoreMatch(s.m, input.msg, before, part, s.v[0]);
      part := part + [s.v[0]];
      s := s.(m := s.m.(g := s.m.g.(matchset := s.m.g.matchset + [(s.i, s.v[0])]), haveMatchset := true), i := s.i + 1);
      Advance(s.c, s.v, input.args);
      s := s.(c := s.c - 1, v := s.v[1..]);
    } else {
      if s.i == 0 {
        return Stop(-EINVAL), s, before, part;
      }
      s := s.(state := TopLevel);
      before, part := before + [Matches(part)], [];
      TopLevelResumes(before, part, s.v, input.mac);
    }
    return Again, s, before, part;
  }

  method TurnActive(s0: Vars, input: Input, ghost before0: seq<Clause>, ghost part0: seq<string>)
      returns (turn: Turn, s: Vars, ghost before: seq<Clause>, ghost part: seq<string>)
    requires Inv(s0, input, before0, part0) && s0.state == InActive && s0.c > 0
    ensures turn.Again? ==> Inv(s, input, before, part) && s.c <= s0.c && (s.c == s0.c ==> s.state == TopLevel)
    ensures turn.Again? && s.state == TopLevel ==> part == []
    ensures turn.Stop? ==> Stopped(s, input, before, turn.err)
  {
    hide Read, Resume, Tracks, Lockstep;
    s, before, part := s0, before0, part0;
    ArgsLeft(s.c, s.v, input.args);
    ActiveStep(part, before, s.v, input.mac);
    if s.v[0] == "ssid" {
      Advance(s.c, s.v, input.args);
      s := s.(c := s.c - 1, v := s.v[1..]);
      if s.c == 0 {
        return Stop(-EINVAL), s, before, part;
      }
      OneMoreSsid(s.m, input.msg, before, part, s.v[0]);
      part := part + [s.v[0]];
      s := s.(m := s.m.(g := s.m.g.(ssids := s.m.g.ssids + [s.v[0]]), haveSsids := true), i := s.i + 1);
      Advance(s.c, s.v, input.args);
      s := s.(c := s.c - 1, v := s.v[1..]);
    } else {
      if s.i == 0 {
        return Stop(-EINVAL), s, before, part;
      }
      s := s.(state := TopLevel);
      before, part := before + [Active(part)], [];
      TopLevelResumes(before, part, s.v, input.mac);
    }
    return Again, s, before, part;
  }

  method TurnFreqs(s0: Vars, input: Input, ghost before0: seq<Clause>, ghost part0: seq<string>)
      returns (turn: Turn, s: Vars, ghost before: seq<Clause>, ghost part: seq<string>)
    requires Inv(s0, input, before0, part0) && s0.state == InFreqs && s0.c > 0
    ensures turn.Again? ==> Inv(s, input, before, part) && s.c <= s0.c && (s.c == s0.c ==> s.state == TopLevel)
    ensures turn.Again? && s.state == TopLevel ==> part == []
    ensures turn.Stop? ==> Stopped(s, input, before, turn.err)
  {
    hide Read, Resume, Tracks, Lockstep, Strtoul;
    s, before, part := s0, before0, part0;
    ArgsLeft(s.c, s.v, input.args);
    FreqStep(part, before, s.v, input.mac);
    var (v, end) := Strtoul(s.v[0], 10);
    if end != |s.v[0]| {
      if s.i == 0 {
        return Stop(-EINVAL), s, before, part;
      }
      s := s.(state := TopLevel);
      before, part := before + [Freqs(part)], [];
      TopLevelResumes(before, part, s.v, input.mac);
    } else {
      OneMoreFreq(s.m, input.msg, before, part, s.v[0]);
      part := part + [s.v[0]];
      s := s.(m := s.m.(g := s.m.g.(freqs := s.m.g.freqs + [(s.i, v % TWO32)])), i := s.i + 1);
      Advance(s.c, s.v, input.args);
      s := s.(c := s.c - 1, v := s.v[1..]);
    }
    return Again, s, before, part;
  }

  method TurnPlans(s0: Vars, input: Input, ghost before0: seq<Clause>, ghost part0: seq<string>)
      returns (turn: Turn, s: Vars, ghost before: seq<Clause>, ghost part: seq<string>)
    requires Inv(s0, input, before0, part0) && s0.state == InPlans && s0.c > 0
    ensures turn.Again? ==> Inv(s, input, before, part) && s.c < s0.c
    ensures turn.Again? && s.state == TopLevel ==> part == []
    ensures turn.Stop? ==> Stopped(s, input, before, turn.err)
  {
    hide Read, Resume, Tracks, Lockstep, Strtoul;
    s, before, part := s0, before0, part0;
    ArgsLeft(s.c, s.v, input.args);
    PlanStep(part, before, s.v, input.mac);
    var iterations := 0;
    var t := s.v[0];
    var (v, end) := Strtoul(t, 10);
    var interval := v % TWO32;
    s := s.(m := s.m.(interval := interval));
    if end != |t| {
      if end > |t| || t[end] != ':' {
        return Stop(-EINVAL), s, before, part;
      }
      var iter := t[end + 1..];
      var (n, iterEnd) := Strtoul(iter, 10);
      iterations := n % TWO32;
      if iterEnd != |iter| || iterations == 0 {
        return Stop(-EINVAL), s, before, part;
      }
    }
    assert PlanOf(t) == Some(Plan(interval, iterations));
    OneMorePlan(s0.m, input.msg, before, part, t, interval);
    part := part + [t];
    s := s.(m := s.m.(g := s.m.g.(plans := s.m.g.plans + [(s.i + 1, Plan(interval, iterations))])), i := s.i + 1);
    if iterations == 0 {
      s := s.(state := TopLevel);
      before, part := before + [Plans(part)], [];
      TopLevelResumes(before, part, s.v[1..], input.mac);
    }
    Advance(s.c, s.v, input.args);
    s := s.(c := s.c - 1, v := s.v[1..]);
    return Again, s, before, part;
  }

  /** What the memory says about the clauses that exclude others. */
  lemma FlagsAgree(m: Memory, msg: seq<Put>, before: seq<Clause>)
    requires Tracks(m, msg, before)
    ensures (m.interval != 0 || m.havePlans) <==> Has(before, IsSchedule)
    ensures m.delay != 0 <==> Has(before, IsDelaying)
    ensures m.haveMatchset <==> Has(before, IsMatching)
    ensures m.haveFreqs <==> Has(before, IsFreqs)
    ensures (m.haveActive || m.havePassive) <==> Has(before, IsMode)
    ensures (m.havePassive <==> Has(before, IsPassive)) && (m.havePlans <==> Has(before, IsPlans))
    ensures m.g == Gather(msg, before) && (m.haveSsids <==> m.g.ssids != [])
  {
    HasMode(before);
  }

  /** The word "interval". */
  method TurnInterval(s0: Vars, input: Input, ghost before0: seq<Clause>) returns (turn: Turn, s: Vars, ghost before: seq<Clause>)
    requires Inv(s0, input, before0, []) && s0.state == TopLevel && s0.c > 0
    requires |s0.v| > 0 && KindOf(s0.v[0]) == KInterval
    ensures turn.Again? ==> Inv(s, input, before, []) && s.c < s0.c
    ensures turn.Stop? ==> Stopped(s, input, before, turn.err)
  {
    hide Read, Resume, Tracks, Lockstep, Strtoul, KindOf;
    s, before := s0, before0;
    ArgsLeft(s.c, s.v, input.args);
    TopLevelResumes(before, [], s.v, input.mac);
    IntervalStep(before, s.v, input.mac);
    FlagsAgree(s.m, input.msg, before);
    Advance(s.c, s.v, input.args);
    s := s.(c := s.c - 1, v := s.v[1..]);
    ArgsLeft(s.c, s.v, input.args);
    if s.c == 0 {
      return Stop(-EINVAL), s, before;
    }
    if s.m.interval != 0 || s.m.havePlans {
      return Stop(-EINVAL), s, before;
    }
    var (n, end) := Strtoul(s.v[0], 10);
    var interval := n % TWO32;
    if end != |s.v[0]| || interval == 0 {
      return Stop(-EINVAL), s.(m := s.m.(interval := interval)), before;
    }
    var m := s.m.(interval := interval, g := s.m.g.(msg := s.m.g.msg + [PutInterval(interval)]));
    TracksClause(s.m, m, input.msg, before, Interval(s.v[0]));
    before := before + [Interval(s.v[0])];
    TopLevelResumes(before, [], s.v[1..], input.mac);
    Advance(s.c, s.v, input.args);
    s := s.(c := s.c - 1, v := s.v[1..], m := m);
    return Again, s, before;
  }

  /** The word "delay". */
  method TurnDelay(s0: Vars, input: Input, ghost before0: seq<Clause>) returns (turn: Turn, s: Vars, ghost before: seq<Clause>)
    requires Inv(s0, input, before0, []) && s0.state == TopLevel && s0.c > 0
    requires |s0.v| > 0 && KindOf(s0.v[0]) == KDelay
    ensures turn.Again? ==> Inv(s, input, before, []) && s.c < s0.c
    ensures turn.Stop? ==> Stopped(s, input, before, turn.err)
  {
    hide Read, Resume, Tracks, Lockstep, Strtoul, KindOf;
    s, before := s0, before0;
    ArgsLeft(s.c, s.v, input.args);
    TopLevelResumes(before, [], s.v, input.mac);
    DelayStep(before, s.v, input.mac);
    FlagsAgree(s.m, input.msg, before);
    Advance(s.c, s.v, input.args);
    s := s.(c := s.c - 1, v := s.v[1..]);
    ArgsLeft(s.c, s.v, input.args);
    if s.c == 0 {
      return Stop(-EINVAL), s, before;
    }
    if s.m.delay != 0 {
      return Stop(-EINVAL), s, before;
    }
    var (n, end) := Strtoul(s.v[0], 10);
    var delay := n % TWO32;
    if end != |s.v[0]| {
      return Stop(-EINVAL), s.(m := s.m.(delay := delay)), before;
    }
    var m := s.m.(delay := delay, g := s.m.g.(msg := s.m.g.msg + [PutDelay(delay)]));
    TracksClause(s.m, m, input.msg, before, Delay(s.v[0]));
    before := before + [Delay(s.v[0])];
    TopLevelResumes(before, [], s.v[1..], input.mac);
    Advance(s.c, s.v, input.args);
    s := s.(c := s.c - 1, v := s.v[1..], m := m);
    return Again, s, before;
  }

  /** The word that begins a list. */
  method TurnBegin(s0: Vars, input: Input, ghost before0: seq<Clause>) returns (turn: Turn, s: Vars, ghost before: seq<Clause>)
    requires Inv(s0, input, before0, []) && s0.state == TopLevel && s0.c > 0
    requires |s0.v| > 0 && KindOf(s0.v[0]) in {KPlans, KMatches, KFreqs, KActive}
    ensures turn.Again? ==> Inv(s, input, before, []) && s.c < s0.c
    ensures turn.Stop? ==> Stopped(s, input, before, turn.err)
  {
    hide Read, Resume, Tracks, Lockstep, Strtoul, KindOf, AddClause, Has, Gather, Compatible;
    s, before := s0, before0;
    ArgsLeft(s.c, s.v, input.args);
    TopLevelResumes(before, [], s.v, input.mac);
    FlagsAgree(s.m, input.msg, before);
    EmptyLists(s.m.g);
    var kind := KindOf(s.v[0]);
    if kind == KPlans {
      PlansBegin(before, s.v, input.mac);
      s := s.(state := InPlans);
      if s.m.havePlans || s.m.interval != 0 {
        return Stop(-EINVAL), s, before;
      }
      TracksClause(s.m, s.m.(havePlans := true), input.msg, before, Plans([]));
      s := s.(m := s.m.(havePlans := true), i := 0);
    } else if kind == KMatches {
      MatchesBegin(before, s.v, input.mac);
      s := s.(state := InMatch);
      if s.m.haveMatchset {
        return Stop(-EINVAL), s, before;
      }
      TracksClause(s.m, s.m, input.msg, before, Matches([]));
      s := s.(i := 0);
    } else if kind == KFreqs {
      FreqsBegin(before, s.v, input.mac);
      s := s.(state := InFreqs);
      if s.m.haveFreqs {
        return Stop(-EINVAL), s, before;
      }
      TracksClause(s.m, s.m.(haveFreqs := true), input.msg, before, Freqs([]));
      s := s.(m := s.m.(haveFreqs := true), i := 0);
    } else {
      ActiveBegin(before, s.v, input.mac);
      s := s.(state := InActive);
      if s.m.haveActive || s.m.havePassive {
        return Stop(-EINVAL), s, before;
      }
      TracksClause(s.m, s.m.(haveActive := true), input.msg, before, Active([]));
      s := s.(m := s.m.(haveActive := true), i := 0);
    }
    Advance(s.c, s.v, input.args);
    s := s.(c := s.c - 1, v := s.v[1..]);
    return Again, s, before;
  }

  /** A word that is a clause by itself. */
  method TurnWord(s0: Vars, input: Input, ghost before0: seq<Clause>) returns (turn: Turn, s: Vars, ghost before: seq<Clause>)
    requires Inv(s0, input, before0, []) && s0.state == TopLevel && s0.c > 0
    requires |s0.v| > 0 && KindOf(s0.v[0]) in {KPassive, KRandomise, KColoc, KFlush}
    ensures turn.Again? ==> Inv(s, input, before, []) && s.c < s0.c
    ensures turn.Stop? ==> Stopped(s, input, before, turn.err)
  {
    hide Read, Resume, Tracks, Lockstep, Strtoul, KindOf, Has;
    s, before := s0, before0;
    ArgsLeft(s.c, s.v, input.args);
    TopLevelResumes(before, [], s.v, input.mac);
    FlagsAgree(s.m, input.msg, before);
    WordStep(before, s.v, input.mac);
    var kind, t, m := KindOf(s.v[0]), s.v[0], s.m;
    ghost var c := Passive;
    if kind == KPassive {
      if m.haveActive || m.havePassive {
        return Stop(-EINVAL), s, before;
      }
      m := m.(havePassive := true);
    } else if kind == KRandomise {
      c := Randomise(t);
      var err := input.mac(t[9..]);
      if err != 0 {
        return Stop(err), s, before;
      }
      m := m.(g := m.g.(msg := m.g.msg + [PutMac(t[9..])], flags := m.g.flags + {RandomAddr}));
    } else if kind == KColoc {
      c := Coloc(t);
      m := m.(g := m.g.(flags := m.g.flags + {Colocated6GHz}));
    } else {
      c := Flush(t);
      m := m.(g := m.g.(flags := m.g.flags + {FlushScan}));
    }
    TracksClause(s.m, m, input.msg, before, c);
    before := before + [c];
    TopLevelResumes(before, [], s.v[1..], input.mac);
    Advance(s.c, s.v, input.args);
    s := s.(c := s.c - 1, v := s.v[1..], m := m);
    return Again, s, before;
  }

  method TurnTopLevel(s0: Vars, input: Input, ghost before0: seq<Clause>) returns (turn: Turn, s: Vars, ghost before: seq<Clause>)
    requires Inv(s0, input, before0, []) && s0.state == TopLevel && s0.c > 0
    ensures turn.Again? ==> Inv(s, input, before, []) && s.c < s0.c
    ensures turn.Stop? ==> Stopped(s, input, before, turn.err)
  {
    hide Read, Resume, Tracks, Lockstep, KindOf;
    ArgsLeft(s0.c, s0.v, input.args);
    match KindOf(s0.v[0]) {
      case KInterval => turn, s, before := TurnInterval(s0, input, before0);
      case KDelay => turn, s, before := TurnDelay(s0, input, before0);
      case KPassive => turn, s, before := TurnWord(s0, input, before0);
      case KRandomise => turn, s, before := TurnWord(s0, input, before0);
      case KColoc => turn, s, before := TurnWord(s0, input, before0);
      case KFlush => turn, s, before := TurnWord(s0, input, before0);
      case Foreign =>
        NotOurs(before0, s0.v, input.mac);
        TopLevelResumes(before0, [], s0.v, input.mac);
        FlagsAgree(s0.m, input.msg, before0);
        return Stop(0), s0, before0;
      case _ => turn, s, before := TurnBegin(s0, input, before0);
    }
  }

  // ---------------------------------------------------------------- the parser

  /** The lists and flags, put after everything else. */
  method PutLists(m: Memory, ghost msg0: seq<Put>, ghost cs: seq<Clause>) returns (msg: seq<Put>)
    requires Tracks(m, msg0, cs)
    ensures msg == Gather(msg0, cs).msg + FinalPuts(Gather(msg0, cs), cs)
  {
    hide Tracks, Gather, Has, When;
    FlagsAgree(m, msg0, cs);
    var ssids := m.g.ssids;
    if !m.haveSsids {
      ssids := [""];
    }
    var puts := When(!m.havePassive, PutSsids(ssids));
    puts := puts + When(m.haveFreqs, PutFreqs(m.g.freqs));
    puts := puts + When(m.haveMatchset, PutMatch(m.g.matchset));
    puts := puts + When(m.havePlans, PutPlans(m.g.plans));
    puts := puts + When(m.g.flags != {}, PutFlags(m.g.flags));
    msg := m.g.msg + puts;
  }

  function Start(msg: seq<Put>, args: seq<string>): Vars {
    Vars(|args|, args, TopLevel, 0,
         Memory(0, 0, false, false, false, false, false, false, Gathered(msg, [], [], [], [], {})))
  }

  lemma AtTheStart(input: Input)
    ensures Inv(Start(input.msg, input.args), input, [], [])
  {
    Nothing(input.msg);
  }

  /**
   `parse_sched_scan`, when there is room in the messages.  It fails exactly when the arguments have no
   reading; otherwise the clauses read decide the message, and the arguments after them are left.
   The lists collected are sent only when no argument is left.
   */
  method ParseSchedScan(msg0: seq<Put>, args: seq<string>, mac: string -> int)
      returns (err: int, argc: nat, argv: seq<string>, msg: seq<Put>)
    ensures argc == |argv| <= |args| && argv == args[|args| - argc..]
    ensures var r := Read([], args, mac);
            && (r.Failed? ==> err == r.err && err != 0)
            && (r.Done? ==>
                  && err == 0 && argv == r.rest
                  && var g := Gather(msg0, r.clauses);
                     msg == g.msg + if r.rest == [] then FinalPuts(g, r.clauses) else [])
    ensures Read([], args, mac).Done? ==> IsMessageOf(msg, msg0, Read([], args, mac))
  {
    hide Read, Resume, Gather, Has, Tracks, Lockstep, FinalPuts, Start;
    var input := Input(msg0, args, mac);
    var s := Start(msg0, args);
    ghost var before: seq<Clause> := [];
    ghost var part: seq<string> := [];
    AtTheStart(input);
    FailuresAreNotZero([], args, mac);
    if Read([], args, mac).Done? {
      ReadMessage(msg0, args, mac);
    }
    hide IsMessageOf;
    var turn := Again;
    while s.c != 0 && turn == Again
      invariant turn == Again ==> Inv(s, input, before, part) && (s.state == TopLevel ==> part == [])
      invariant turn.Stop? ==> Stopped(s, input, before, turn.err)
      decreases turn == Again, s.c, s.state != TopLevel
    {
      match s.state {
        case TopLevel => turn, s, before := TurnTopLevel(s, input, before); part := [];
        case InMatch => turn, s, before, part := TurnMatch(s, input, before, part);
        case InFreqs => turn, s, before, part := TurnFreqs(s, input, before, part);
        case InActive => turn, s, before, part := TurnActive(s, input, before, part);
        case InPlans => turn, s, before, part := TurnPlans(s, input, before, part);
      }
    }
    argc, argv := s.c, s.v;
    msg := s.m.g.msg;
    Suffix(s.c, s.v, args);
    match turn {
      case Stop(e) =>
        err := e;
      case Again =>
        err := 0;
        ghost var cs := With(before, s.state, part);
        AtTheEnd(s.state, part, before, mac);
        FlagsAgree(s.m, msg0, cs);
        msg := PutLists(s.m, msg0, cs);
    }
  }

  // ---------------------------------------------------------------- the plans that are sent

  /** Numbered from one, and every plan but the last with iterations. */
  predicate PlansComplete(l: seq<(nat, Plan)>) {
    && (forall i :: 0 <= i < |l| ==> l[i].0 == i + 1)
    && (forall i :: 0 <= i < |l| - 1 ==> l[i].1.iterations != 0)
  }

  lemma {:induction false} PlansOfPrefix(msg: seq<Put>, args: seq<string>, cs: seq<Clause>, rest: seq<string>, k: nat)
    requires Writes(args, cs, rest) && AllCompatible([], cs) && k <= |cs|
    ensures PlansComplete(Gather(msg, cs[..k]).plans)
    ensures !Has(cs[..k], IsPlans) ==> Gather(msg, cs[..k]).plans == []
  {
    hide Has, Gather, Writes, AllCompatible, Goes, PlansComplete, NumberedPlans;
    if k > 0 {
      PlansOfPrefix(msg, args, cs, rest, k - 1);
      var before, c := cs[..k - 1], cs[k - 1];
      assert cs[..k] == before + [c];
      OneMoreClause(msg, before, c);
      if c.Plans? {
        PlansAreFirst(msg, cs, k - 1);
        PlansGo(args, cs, rest, k - 1);
        NumberedPlansComplete(c.plans);
        assert [] + NumberedPlans(c.plans) == NumberedPlans(c.plans);
      }
    } else {
      Nothing(msg);
      assert cs[..0] == [];
      NumberedPlansComplete([]);
      assert |NumberedPlans([])| == 0;
    }
  }

  lemma NumberedPlansComplete(l: seq<string>)
    requires forall i :: 0 <= i < |l| - 1 ==> Goes(l[i])
    ensures PlansComplete(NumberedPlans(l)) && |NumberedPlans(l)| == |l|
  {
    hide PlanOf;
  }

  lemma PlansAreFirst(msg: seq<Put>, cs: seq<Clause>, k: nat)
    requires AllCompatible([], cs) && k < |cs| && cs[k].Plans?
    ensures !Has(cs[..k], IsPlans)
  {
    CompatibleAt([], cs, k);
    assert [] + cs[..k] == cs[..k];
    assert forall c :: IsPlans(c) ==> IsSchedule(c);
  }

  lemma PlansGo(args: seq<string>, cs: seq<Clause>, rest: seq<string>, k: nat)
    requires Writes(args, cs, rest) && k < |cs| && cs[k].Plans?
    ensures forall i :: 0 <= i < |cs[k].plans| - 1 ==> Goes(cs[k].plans[i])
  {
    InOrderAt(args, cs, rest, k);
    var after :| InOrder(cs[k], after);
  }

  /** In the plans of every successful parse only the last can go on for ever. */
  lemma OnlyTheLastPlanIsEndless(msg: seq<Put>, args: seq<string>, mac: string -> int)
    requires Read([], args, mac).Done?
    ensures PlansComplete(Gather(msg, Read([], args, mac).clauses).plans)
  {
    var cs, rest := Read([], args, mac).clauses, Read([], args, mac).rest;
    assert [] + cs == cs && cs[..|cs|] == cs;
    ReadIff([], args, mac, cs, rest);
    PlansOfPrefix(msg, args, cs, rest, |cs|);
  }
}
