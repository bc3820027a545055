/**
 The arguments of a scheduled scan: `parse_sched_scan` (wifi/iw/scan.c).  The reference is a reading of
 the argument list as a list of clauses; the parser is a state machine over single arguments.
 */
module SchedScan {
  import opened CNumbers
  import opened HexText
  import opened Options

  const EINVAL := 22

  // ---------------------------------------------------------------- clauses

  datatype Clause =
    | Interval(t: string)
    | Plans(plans: seq<string>)
    | Delay(t: string)
    | Matches(ssids: seq<string>)
    | Freqs(freqs: seq<string>)
    | Active(ssids: seq<string>)
    | Passive
    | Randomise(t: string)
    | Coloc(t: string)
    | Flush(t: string)

  /** An SSID list as it is written: each name after the word "ssid". */
  function Pairs(ssids: seq<string>): (r: seq<string>)
    ensures |r| == 2 * |ssids|
  {
    if ssids == [] then [] else ["ssid", ssids[0]] + Pairs(ssids[1..])
  }

  const INTERVAL := "interval"
  const SCAN_PLANS := "scan_plans"
  const DELAY := "delay"
  const MATCHES := "matches"
  const FREQS := "freqs"
  const ACTIVE := "active"
  const PASSIVE := "passive"

  /** The arguments that write a clause. */
  function Words(c: Clause): (w: seq<string>)
    ensures w != []
  {
    match c
    case Interval(t) => [INTERVAL, t]
    case Plans(plans) => [SCAN_PLANS] + plans
    case Delay(t) => [DELAY, t]
    case Matches(ssids) => [MATCHES] + Pairs(ssids)
    case Freqs(freqs) => [FREQS] + freqs
    case Active(ssids) => [ACTIVE] + Pairs(ssids)
    case Passive => [PASSIVE]
    case Randomise(t) => [t]
    case Coloc(t) => [t]
    case Flush(t) => [t]
  }

  datatype Kind =
    KInterval | KPlans | KDelay | KMatches | KFreqs | KActive | KPassive | KRandomise | KColoc | KFlush | Foreign

  /** The comparisons of an argument with the words that begin clauses. */
  function KindOf(t: string): Kind {
    if t == INTERVAL then KInterval
    else if t == SCAN_PLANS then KPlans
    else if t == DELAY then KDelay
    else if t == MATCHES then KMatches
    else if t == FREQS then KFreqs
    else if t == ACTIVE then KActive
    else if t == PASSIVE then KPassive
    else if "randomise" <= t || "randomize" <= t then KRandomise
    else if "coloc" <= t then KColoc
    else if "flush" <= t then KFlush
    else Foreign
  }

  lemma Keywords()
    ensures KindOf(INTERVAL) == KInterval && KindOf(SCAN_PLANS) == KPlans && KindOf(DELAY) == KDelay
    ensures KindOf(MATCHES) == KMatches && KindOf(FREQS) == KFreqs && KindOf(ACTIVE) == KActive
    ensures KindOf(PASSIVE) == KPassive
  {
  }

  lemma WordOfKind(t: string)
    ensures KindOf(t) == KInterval ==> t == INTERVAL
    ensures KindOf(t) == KPlans ==> t == SCAN_PLANS
    ensures KindOf(t) == KDelay ==> t == DELAY
    ensures KindOf(t) == KMatches ==> t == MATCHES
    ensures KindOf(t) == KFreqs ==> t == FREQS
    ensures KindOf(t) == KActive ==> t == ACTIVE
    ensures KindOf(t) == KPassive ==> t == PASSIVE
    ensures KindOf(t) == KRandomise ==> |t| >= 9
  {
  }

  datatype Plan = Plan(interval: nat, iterations: nat)

  /** A plan token: an interval, and after a colon a number of iterations that is not zero. */
  function PlanOf(t: string): Option<Plan> {
    var (v, end) := Strtoul(t, 10);
    if end == |t| then Some(Plan(v % TWO32, 0))
    else if end > |t| || t[end] != ':' then None
    else
      var iter := t[end + 1..];
      if IsDecimal(iter) && UintOf(iter) != 0 then Some(Plan(v % TWO32, UintOf(iter))) else None
  }

  /** A plan with more to come after it. */
  predicate Goes(t: string) {
    PlanOf(t).Some? && PlanOf(t).value.iterations != 0
  }

  /** Every plan but the last goes on; a list that could go on is the end of the arguments. */
  ghost predicate PlansInOrder(plans: seq<string>, ended: bool) {
    && (forall i :: 0 <= i < |plans| - 1 ==> Goes(plans[i]))
    && (if plans == [] then ended
        else PlanOf(plans[|plans| - 1]).Some? && (Goes(plans[|plans| - 1]) ==> ended))
  }

  /**
   A clause is in order, given the arguments after it: lists are not empty and nothing after them could
   belong to them, unless the arguments end.
   */
  ghost predicate InOrder(c: Clause, after: seq<string>) {
    match c
    case Interval(t) => IsDecimal(t) && UintOf(t) != 0
    case Delay(t) => IsDecimal(t)
    case Plans(plans) => PlansInOrder(plans, after == [])
    case Matches(ssids) => after == [] || (ssids != [] && after[0] != "ssid")
    case Active(ssids) => after == [] || (ssids != [] && after[0] != "ssid")
    case Freqs(freqs) =>
      && (forall i :: 0 <= i < |freqs| ==> IsDecimal(freqs[i]))
      && (after == [] || (freqs != [] && !IsDecimal(after[0])))
    case Passive => true
    case Randomise(t) => KindOf(t) == KRandomise
    case Coloc(t) => KindOf(t) == KColoc
    case Flush(t) => KindOf(t) == KFlush
  }

  // ---------------------------------------------------------------- clauses that exclude each other

  predicate IsSchedule(c: Clause) {
    c.Interval? || c.Plans?
  }

  predicate IsDelaying(c: Clause) {
    c.Delay? && UintOf(c.t) != 0
  }

  predicate IsMatching(c: Clause) {
    c.Matches? && c.ssids != []
  }

  predicate IsFreqs(c: Clause) {
    c.Freqs?
  }

  predicate IsMode(c: Clause) {
    c.Active? || c.Passive?
  }

  ghost predicate Has(cs: seq<Clause>, p: Clause -> bool) {
    exists c :: c in cs && p(c)
  }

  /** A clause may follow those before it. */
  ghost predicate Compatible(before: seq<Clause>, c: Clause) {
    && (IsSchedule(c) ==> !Has(before, IsSchedule))
    && (c.Delay? ==> !Has(before, IsDelaying))
    && (c.Matches? ==> !Has(before, IsMatching))
    && (c.Freqs? ==> !Has(before, IsFreqs))
    && (IsMode(c) ==> !Has(before, IsMode))
  }

  // ---------------------------------------------------------------- reading clauses

  function SsidPairs(args: seq<string>): (l: seq<string>)
    ensures 2 * |l| <= |args|
  {
    if |args| < 2 || args[0] != "ssid" then [] else [args[1]] + SsidPairs(args[2..])
  }

  function PlanTokens(args: seq<string>): (r: Option<seq<string>>)
    ensures r.Some? ==> |r.value| <= |args|
  {
    if args == [] then Some([])
    else if PlanOf(args[0]).None? then None
    else if PlanOf(args[0]).value.iterations == 0 then Some([args[0]])
    else
      match PlanTokens(args[1..])
      case None => None
      case Some(rest) => Some([args[0]] + rest)
  }

  /** A list read so far and what follows make a clause. */
  predicate ListEnds(empty: bool, rest: seq<string>) {
    rest == [] || (!empty && rest[0] != "ssid")
  }

  /** The clause at the head of the arguments, if it is in order. */
  function ReadClause(args: seq<string>): (r: Option<Clause>)
    requires args != [] && KindOf(args[0]) != Foreign
    ensures r.Some? ==> |Words(r.value)| <= |args|
    ensures r.Some? && r.value.Randomise? ==> r.value.t == args[0] && KindOf(args[0]) == KRandomise && |args[0]| >= 9
  {
    var word, tail := args[0], args[1..];
    match KindOf(word)
    case KInterval =>
      if tail != [] && IsDecimal(tail[0]) && UintOf(tail[0]) != 0 then Some(Interval(tail[0])) else None
    case KPlans =>
      (match PlanTokens(tail) case None => None case Some(plans) => Some(Plans(plans)))
    case KDelay =>
      if tail != [] && IsDecimal(tail[0]) then Some(Delay(tail[0])) else None
    case KMatches =>
      var l := SsidPairs(tail);
      if ListEnds(l == [], tail[2 * |l|..]) then Some(Matches(l)) else None
    case KFreqs =>
      var n := Decimals(tail);
      if n == |tail| || n > 0 then Some(Freqs(tail[..n])) else None
    case KActive =>
      var l := SsidPairs(tail);
      if ListEnds(l == [], tail[2 * |l|..]) then Some(Active(l)) else None
    case KPassive => Some(Passive)
    case KRandomise => Some(Randomise(word))
    case KColoc => Some(Coloc(word))
    case KFlush => Some(Flush(word))
  }

  /** What is read from the arguments: clauses and the arguments after them, or an error. */
  datatype Reading = Done(clauses: seq<Clause>, rest: seq<string>) | Failed(err: int)

  /** The parameter `mac` is the result of `parse_random_mac_addr`. */
  ghost function Read(before: seq<Clause>, args: seq<string>, mac: string -> int): Reading
    decreases |args|
  {
    if args == [] || KindOf(args[0]) == Foreign then Done(before, args)
    else
      match ReadClause(args)
      case None => Failed(-EINVAL)
      case Some(c) =>
        if !Compatible(before, c) then Failed(-EINVAL)
        else if c.Randomise? && mac(c.t[9..]) != 0 then Failed(mac(c.t[9..]))
        else Read(before + [c], args[|Words(c)|..], mac)
  }

  /** An error is -22, or the code other than zero that a random address gives. */
  lemma {:induction false} FailuresAreNotZero(before: seq<Clause>, args: seq<string>, mac: string -> int)
    ensures Read(before, args, mac).Failed? ==> Read(before, args, mac).err != 0
    ensures Read(before, args, mac).Failed? ==>
              || Read(before, args, mac).err == -22
              || exists t :: t in args && |t| >= 9 && Read(before, args, mac).err == mac(t[9..])
    decreases |args|
  {
    hide KindOf, ReadClause, Compatible;
    if args != [] && KindOf(args[0]) != Foreign && ReadClause(args).Some? {
      var c := ReadClause(args).value;
      FailuresAreNotZero(before + [c], args[|Words(c)|..], mac);
    }
  }

  // ---------------------------------------------------------------- the reading is the only one

  /** The arguments are these clauses, each in order, followed by `rest`. */
  ghost predicate Writes(args: seq<string>, clauses: seq<Clause>, rest: seq<string>)
    decreases clauses
  {
    if clauses == [] then args == rest && (rest == [] || KindOf(rest[0]) == Foreign)
    else
      var w := Words(clauses[0]);
      w <= args && InOrder(clauses[0], args[|w|..]) && Writes(args[|w|..], clauses[1..], rest)
  }

  ghost predicate AllCompatible(before: seq<Clause>, clauses: seq<Clause>)
    decreases clauses
  {
    clauses == [] || (Compatible(before, clauses[0]) && AllCompatible(before + [clauses[0]], clauses[1..]))
  }

  ghost predicate MacsParse(clauses: seq<Clause>, mac: string -> int) {
    forall c :: c in clauses && c.Randomise? && |c.t| >= 9 ==> mac(c.t[9..]) == 0
  }

  lemma {:induction false} PairsIff(args: seq<string>, l: seq<string>)
    ensures SsidPairs(args) == l && ListEnds(l == [], args[2 * |l|..]) <==>
            Pairs(l) <= args && ListEnds(l == [], args[2 * |l|..])
  {
    if l != [] && |args| >= 2 {
      PairsIff(args[2..], l[1..]);
    }
  }

  lemma {:induction false} PlansIff(args: seq<string>, plans: seq<string>)
    ensures PlanTokens(args) == Some(plans) <==>
            plans <= args && PlansInOrder(plans, |plans| == |args|)
  {
    hide PlanOf;
    var ended := |plans| == |args|;
    if args != [] {
      assert PlanTokens(args).Some? ==> PlanTokens(args).value != [] && PlanTokens(args).value[0] == args[0];
      if plans != [] && plans[0] == args[0] {
        PlansIff(args[1..], plans[1..]);
        assert plans == [args[0]] + plans[1..];
        assert plans <= args <==> plans[1..] <= args[1..] by {
          assert args == [args[0]] + args[1..];
        }
        if Goes(args[0]) {
          MorePlans(plans, ended);
        } else if PlanOf(args[0]).Some? {
          assert PlansInOrder(plans, ended) <==> |plans| == 1;
          assert |plans| == 1 <==> plans == [args[0]];
        } else {
          assert |plans| > 1 ==> !Goes(plans[0]);
          assert !PlansInOrder(plans, ended);
        }
      }
    }
  }

  lemma MorePlans(plans: seq<string>, ended: bool)
    requires plans != [] && Goes(plans[0])
    ensures PlansInOrder(plans, ended) <==> PlansInOrder(plans[1..], ended)
  {
    hide PlanOf;
    var tail := plans[1..];
    assert forall i :: 0 < i < |plans| ==> plans[i] == tail[i - 1];
    assert forall i :: 0 <= i < |tail| ==> tail[i] == plans[i + 1];
  }

  lemma AfterTheWord(word: string, list: seq<string>, args: seq<string>)
    requires args != []
    ensures [word] + list <= args <==> word == args[0] && list <= args[1..]
    ensures 1 + |list| <= |args| ==> args[1 + |list|..] == args[1..][|list|..]
  {
    if word == args[0] && list <= args[1..] {
      assert args == [args[0]] + args[1..];
    }
    if [word] + list <= args {
      assert ([word] + list)[0] == args[0];
      assert forall i :: 0 <= i < |list| ==> list[i] == ([word] + list)[i + 1] == args[1..][i];
    }
  }

  lemma FreqsIff(tail: seq<string>, l: seq<string>)
    ensures var n := Decimals(tail);
            l == tail[..n] && (n == |tail| || n > 0) <==> l <= tail && InOrder(Freqs(l), tail[|l|..])
  {
    hide IsDecimal, Decimals;
    if l <= tail {
      DecimalsIff(tail, |l|);
      assert forall i :: 0 <= i < |l| ==> l[i] == tail[i];
      assert tail[..|l|] == l;
      assert |l| < |tail| ==> tail[|l|..][0] == tail[|l|];
    }
  }

  /** The clause read at the head is the one that is written there, in order. */
  lemma ReadClauseIff(args: seq<string>, c: Clause)
    requires args != [] && KindOf(args[0]) != Foreign
    ensures ReadClause(args) == Some(c) <==> Words(c) <= args && InOrder(c, args[|Words(c)|..])
  {
    hide KindOf, IsDecimal, UintOf, PlanOf, INTERVAL, SCAN_PLANS, DELAY, MATCHES, FREQS, ACTIVE, PASSIVE;
    hide Pairs, PlansInOrder, PlanTokens, SsidPairs, Decimals;
    Keywords();
    WordOfKind(args[0]);
    if c.Matches? || c.Active? || c.Freqs? || c.Plans? {
      ReadListIff(args, c);
    }
  }

  lemma ReadListIff(args: seq<string>, c: Clause)
    requires args != [] && KindOf(args[0]) != Foreign && (c.Matches? || c.Active? || c.Freqs? || c.Plans?)
    ensures ReadClause(args) == Some(c) <==> Words(c) <= args && InOrder(c, args[|Words(c)|..])
  {
    match c
    case Matches(l) => ReadMatches(args, l);
    case Active(l) => ReadActive(args, l);
    case Freqs(l) => ReadFreqs(args, l);
    case Plans(l) => ReadPlans(args, l);
  }

  lemma ReadMatches(args: seq<string>, l: seq<string>)
    requires args != [] && KindOf(args[0]) != Foreign
    ensures ReadClause(args) == Some(Matches(l)) <==>
            Words(Matches(l)) <= args && InOrder(Matches(l), args[|Words(Matches(l))|..])
  {
    hide KindOf, MATCHES, Pairs, SsidPairs;
    Keywords();
    WordOfKind(args[0]);
    PairsIff(args[1..], l);
    AfterTheWord(MATCHES, Pairs(l), args);
  }

  lemma ReadActive(args: seq<string>, l: seq<string>)
    requires args != [] && KindOf(args[0]) != Foreign
    ensures ReadClause(args) == Some(Active(l)) <==>
            Words(Active(l)) <= args && InOrder(Active(l), args[|Words(Active(l))|..])
  {
    hide KindOf, ACTIVE, Pairs, SsidPairs;
    Keywords();
    WordOfKind(args[0]);
    PairsIff(args[1..], l);
    AfterTheWord(ACTIVE, Pairs(l), args);
  }

  lemma ReadFreqs(args: seq<string>, l: seq<string>)
    requires args != [] && KindOf(args[0]) != Foreign
    ensures ReadClause(args) == Some(Freqs(l)) <==>
            Words(Freqs(l)) <= args && InOrder(Freqs(l), args[|Words(Freqs(l))|..])
  {
    hide KindOf, FREQS, Decimals, IsDecimal;
    Keywords();
    WordOfKind(args[0]);
    FreqsIff(args[1..], l);
    AfterTheWord(FREQS, l, args);
  }

  lemma ReadPlans(args: seq<string>, l: seq<string>)
    requires args != [] && KindOf(args[0]) != Foreign
    ensures ReadClause(args) == Some(Plans(l)) <==>
            Words(Plans(l)) <= args && InOrder(Plans(l), args[|Words(Plans(l))|..])
  {
    hide KindOf, SCAN_PLANS, PlanTokens, PlansInOrder;
    Keywords();
    WordOfKind(args[0]);
    PlansIff(args[1..], l);
    AfterTheWord(SCAN_PLANS, l, args);
  }

  lemma WrittenIsOurs(c: Clause, after: seq<string>)
    requires InOrder(c, after)
    ensures KindOf(Words(c)[0]) != Foreign
  {
    hide KindOf, INTERVAL, SCAN_PLANS, DELAY, MATCHES, FREQS, ACTIVE, PASSIVE;
    Keywords();
  }

  lemma MacsOfMore(c: Clause, cs: seq<Clause>, mac: string -> int)
    ensures MacsParse([c] + cs, mac) <==> (c.Randomise? && |c.t| >= 9 ==> mac(c.t[9..]) == 0) && MacsParse(cs, mac)
  {
    assert c in [c] + cs;
  }

  lemma {:induction false} ReadExtends(before: seq<Clause>, args: seq<string>, mac: string -> int)
    ensures Read(before, args, mac).Done? ==> before <= Read(before, args, mac).clauses
    decreases |args|
  {
    hide KindOf, ReadClause, Compatible;
    if args != [] && KindOf(args[0]) != Foreign && ReadClause(args).Some? {
      var c := ReadClause(args).value;
      ReadExtends(before + [c], args[|Words(c)|..], mac);
    }
  }

  /**
   The reading is the only one: it succeeds with some clauses and a rest exactly when the arguments
   write those clauses, in order and compatible, before that rest.
   */
  lemma {:induction false} ReadIff(before: seq<Clause>, args: seq<string>, mac: string -> int, cs: seq<Clause>, rest: seq<string>)
    ensures Read(before, args, mac) == Done(before + cs, rest) <==>
            Writes(args, cs, rest) && AllCompatible(before, cs) && MacsParse(cs, mac)
    decreases |args|
  {
    hide KindOf, InOrder, Words, ReadClause, Compatible;
    if cs != [] && Writes(args, cs, rest) {
      var after := args[|Words(cs[0])|..];
      WrittenIsOurs(cs[0], after);
      assert args[0] == Words(cs[0])[0];
    }
    if args == [] || KindOf(args[0]) == Foreign {
      assert before + cs == before <==> cs == [];
    } else {
      if cs != [] {
        ReadClauseIff(args, cs[0]);
      }
      match ReadClause(args)
      case None =>
      case Some(c) =>
        var after := args[|Words(c)|..];
        if cs != [] && cs[0] == c {
          ReadIff(before + [c], after, mac, cs[1..], rest);
          assert before + [c] + cs[1..] == before + cs;
          assert cs == [c] + cs[1..];
          MacsOfMore(c, cs[1..], mac);
        } else {
          ReadExtends(before + [c], after, mac);
          var r := Read(before, args, mac);
          assert r.Done? ==> |r.clauses| > |before| && r.clauses[|before|] == (before + [c])[|before|] == c;
          assert cs != [] ==> (before + cs)[|before|] == cs[0];
        }
    }
  }

  /** Each clause is compatible with those before it. */
  lemma {:induction false} CompatibleAt(before: seq<Clause>, cs: seq<Clause>, k: nat)
    requires AllCompatible(before, cs) && k < |cs|
    ensures Compatible(before + cs[..k], cs[k])
    decreases k
  {
    hide Compatible;
    if k == 0 {
      assert before + cs[..0] == before;
    } else {
      CompatibleAt(before + [cs[0]], cs[1..], k - 1);
      assert before + [cs[0]] + cs[1..][..k - 1] == before + cs[..k];
    }
  }

  lemma {:induction false} InOrderAt(args: seq<string>, cs: seq<Clause>, rest: seq<string>, k: nat)
    requires Writes(args, cs, rest) && k < |cs|
    ensures exists after :: InOrder(cs[k], after)
    decreases k
  {
    hide InOrder;
    if k > 0 {
      InOrderAt(args[|Words(cs[0])|..], cs[1..], rest, k - 1);
    }
  }

  /**
   A successful reading has at most one of an interval and scan plans, at most one of active and passive,
   and at most one list of frequencies.
   */
  lemma ExclusiveClauses(args: seq<string>, mac: string -> int, j: nat, k: nat)
    requires Read([], args, mac).Done? && j < k < |Read([], args, mac).clauses|
    ensures var cs := Read([], args, mac).clauses;
            !(IsSchedule(cs[j]) && IsSchedule(cs[k])) && !(IsMode(cs[j]) && IsMode(cs[k])) && !(IsFreqs(cs[j]) && IsFreqs(cs[k]))
  {
    var cs, rest := Read([], args, mac).clauses, Read([], args, mac).rest;
    assert [] + cs == cs;
    ReadIff([], args, mac, cs, rest);
    CompatibleAt([], cs, k);
    assert [] + cs[..k] == cs[..k];
    assert cs[j] in cs[..k];
  }

  // ---------------------------------------------------------------- words, one by one

  /** The words that begin clauses, and those that make up clauses by themselves. */
  lemma WhichWordsBegin(t: string)
    ensures (KindOf(t) == KInterval <==> t == "interval") && (KindOf(t) == KPlans <==> t == "scan_plans")
    ensures (KindOf(t) == KDelay <==> t == "delay") && (KindOf(t) == KMatches <==> t == "matches")
    ensures (KindOf(t) == KFreqs <==> t == "freqs") && (KindOf(t) == KActive <==> t == "active")
    ensures KindOf(t) == KPassive <==> t == "passive"
    ensures KindOf(t) == KRandomise <==> "randomise" <= t || "randomize" <= t
    ensures (KindOf(t) == KColoc <==> "coloc" <= t) && (KindOf(t) == KFlush <==> "flush" <= t)
  {
    assert "randomise" <= t || "randomize" <= t ==> t[0] == 'r';
    assert "coloc" <= t ==> t[0] == 'c';
    assert "flush" <= t ==> t[0] == 'f' && t[1] == 'l';
  }

  /** How the clauses are written. */
  lemma HowClausesAreWritten(t: string, u: string, l: seq<string>)
    ensures Words(Interval(t)) == ["interval", t] && Words(Delay(t)) == ["delay", t] && Words(Passive) == ["passive"]
    ensures Words(Plans(l)) == ["scan_plans"] + l && Words(Freqs(l)) == ["freqs"] + l
    ensures Words(Matches([t, u])) == ["matches", "ssid", t, "ssid", u]
    ensures Words(Active([t, u])) == ["active", "ssid", t, "ssid", u]
  {
    assert Pairs([u]) == ["ssid", u] by {
      assert [u][1..] == [];
    }
    assert [t, u][1..] == [u] && Pairs([t, u]) == ["ssid", t, "ssid", u];
  }

  /** An interval alone is a plan without end, and two numbers around a colon are one with that many iterations. */
  lemma WhichPlansAreWritten(a: string, b: string)
    requires AllDigits(a, 10) && a != [] && Number(a, 10) < 0x1_0000_0000
    requires AllDigits(b, 10) && b != [] && Number(b, 10) < 0x1_0000_0000
    ensures PlanOf(a) == Some(Plan(Number(a, 10), 0))
    ensures PlanOf(a + ":" + b) == if Number(b, 10) == 0 then None else Some(Plan(Number(a, 10), Number(b, 10)))
  {
    hide Number, Strtoul;
    PlainDigits(a, 10);
    PlainDigits(b, 10);
    DigitsThenColon(a, b);
    assert (a + ":" + b)[|a| + 1..] == b;
  }

  lemma DigitsThenColon(a: string, b: string)
    requires AllDigits(a, 10) && a != [] && Number(a, 10) < 0x1_0000_0000
    ensures Strtoul(a + ":" + b, 10) == (Number(a, 10), |a|)
  {
    hide Number, LeadingDigits;
    var t := a + ":" + b;
    assert t[0] == a[0] && IsHex(a[0]);
    DigitsUpToColon(a, b);
    assert t[0..] == t && t[..|a|] == a;
  }

  lemma {:induction false} DigitsUpToColon(a: string, b: string)
    requires AllDigits(a, 10)
    ensures LeadingDigits(a + ":" + b, 10) == |a|
  {
    var t := a + ":" + b;
    if a != [] {
      DigitsUpToColon(a[1..], b);
      assert t[1..] == a[1..] + ":" + b && t[0] == a[0];
    } else {
      assert t[0] == ':';
    }
  }
}
