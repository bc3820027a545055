/** The loop of `handle_scan` (wifi/iw/scan.c), proved to follow the reading of module Scan. */
module ScanParser {
  import opened CNumbers
  import opened HexPattern
  import opened Options
  import opened Scan
  import opened ScanMessage

  // ---------------------------------------------------------------- the state of the loop

  datatype ParseState = InNone | InFreq | InIes | InSsid | InMeshId | InDuration | InDone

  datatype Vars = Vars(i: int, parse: ParseState, m: Memory)

  /** The clauses read, with the one being read and its list items `part` so far. */
  function With(before: seq<Clause>, parse: ParseState, part: seq<string>): seq<Clause> {
    match parse
    case InNone => before
    case InDone => before
    case InFreq => before + [Freq(part)]
    case InSsid => before + [Ssid(part)]
    case InIes => before + [Unfinished(IES)]
    case InMeshId => before + [Unfinished(MESHID)]
    case InDuration => before + [Unfinished(DURATION)]
  }

  /** What is read from here on. */
  ghost function Resume(parse: ParseState, part: seq<string>, before: seq<Clause>, v: seq<string>, mac: string -> int): Reading {
    match parse
    case InNone => Read(before, v, mac)
    case InDone => if v == [] then Complete(before) else Broken(1, Macs(before))
    case InFreq => var n := Decimals(v); Read(before + [Freq(part + v[..n])], v[n..], mac)
    case InSsid => Complete(before + [Ssid(part + v)])
    case InIes =>
      if v == [] then Complete(before + [Unfinished(IES)])
      else if !HexFits(v[0], false) then OutOfBounds
      else if ElementsOf(v[0]).Some? then Read(before + [IesHex(v[0])], v[1..], mac)
      else Broken(ErrorAt(before, IES), Macs(before))
    case InMeshId =>
      if v == [] then Complete(before + [Unfinished(MESHID)]) else Read(before + [MeshId(v[0])], v[1..], mac)
    case InDuration =>
      if v == [] then Complete(before + [Unfinished(DURATION)]) else Read(before + [Duration(v[0])], v[1..], mac)
  }

  ghost predicate Inv(s: Vars, args: seq<string>, mac: string -> int, before: seq<Clause>, part: seq<string>) {
    && 0 <= s.i <= |args|
    && Read([], args, mac) == Resume(s.parse, part, before, args[s.i..], mac)
    && s.m == Gather(With(before, s.parse, part))
    && s.i == Width(With(before, s.parse, part))
    && (s.m.err == if Randomised(before) then 0 else -ENOBUFS)
  }

  // ---------------------------------------------------------------- steps

  lemma RandomisedOneMore(cs: seq<Clause>, c: Clause)
    ensures Randomised(cs + [c]) <==> Randomised(cs) || c.Randomise?
  {
    if Randomised(cs) {
      var d :| d in cs && d.Randomise?;
      assert d in cs + [c];
    }
    assert c in cs + [c];
  }

  lemma Tail(args: seq<string>, i: nat)
    requires i < |args|
    ensures args[i..] != [] && args[i..][0] == args[i] && args[i..][1..] == args[i + 1..]
  {
  }

  lemma NoneResumes(before: seq<Clause>, part: seq<string>, v: seq<string>, mac: string -> int)
    ensures Resume(InNone, part, before, v, mac) == Read(before, v, mac)
  {
  }

  lemma FreqStep(part: seq<string>, before: seq<Clause>, v: seq<string>, mac: string -> int)
    requires v != []
    ensures Resume(InFreq, part, before, v, mac) ==
            if IsDecimal(v[0]) then Resume(InFreq, part + [v[0]], before, v[1..], mac)
            else Read(before + [Freq(part)], v, mac)
  {
    hide Read, IsDecimal;
    if IsDecimal(v[0]) {
      var n := Decimals(v[1..]);
      assert part + v[..n + 1] == part + [v[0]] + v[1..][..n];
      assert v[n + 1..] == v[1..][n..];
    } else {
      assert part + v[..0] == part && v[0..] == v;
    }
  }

  lemma SsidStep(part: seq<string>, before: seq<Clause>, v: seq<string>, mac: string -> int)
    requires v != []
    ensures Resume(InSsid, part, before, v, mac) == Resume(InSsid, part + [v[0]], before, v[1..], mac)
  {
    assert part + v == part + [v[0]] + v[1..];
  }

  /** One step of the reading, whatever the clause. */
  lemma ReadHere(before: seq<Clause>, v: seq<string>, mac: string -> int)
    requires v != []
    ensures Read(before, v, mac) ==
            if KindOf(v[0]) == Foreign then Broken(1, Macs(before))
            else if Overruns(v) then OutOfBounds
            else
              match ReadClause(v)
              case None => Broken(ErrorAt(before, v[0]), Macs(before))
              case Some(c) =>
                if c.Randomise? && mac(c.t[9..]) != 0 then Broken(mac(c.t[9..]), Macs(before))
                else Read(before + [c], v[|Words(c)|..], mac)
  {
    hide ReadClause, Words, KindOf, ErrorAt, HexFits;
  }

  lemma NothingMore(before: seq<Clause>, mac: string -> int)
    ensures Read(before, [], mac) == Complete(before)
  {
  }

  lemma FreqBegins(before: seq<Clause>, v: seq<string>, mac: string -> int)
    requires v != [] && KindOf(v[0]) == KFreq
    ensures Read(before, v, mac) == Resume(InFreq, [], before, v[1..], mac)
  {
    hide Read, KindOf, Decimals, FREQ;
    ReadHere(before, v, mac);
    var tail := v[1..];
    var l := tail[..Decimals(tail)];
    assert [] + l == l && v[1 + |l|..] == tail[|l|..];
    assert ReadClause(v) == Some(Freq(l)) && |Words(Freq(l))| == 1 + |l|;
  }

  lemma SsidBegins(before: seq<Clause>, v: seq<string>, mac: string -> int)
    requires v != [] && KindOf(v[0]) == KSsid
    ensures Read(before, v, mac) == Resume(InSsid, [], before, v[1..], mac)
  {
    hide Read, KindOf, SSID;
    ReadHere(before, v, mac);
    var tail := v[1..];
    assert [] + tail == tail && ReadClause(v) == Some(Ssid(tail)) && v[|Words(Ssid(tail))|..] == [];
    NothingMore(before + [Ssid(tail)], mac);
  }

  /** The words that take one argument. */
  lemma OneBegins(before: seq<Clause>, v: seq<string>, mac: string -> int)
    requires v != []
    ensures KindOf(v[0]) == KIes ==> Read(before, v, mac) == Resume(InIes, [], before, v[1..], mac)
    ensures KindOf(v[0]) == KMeshId ==> Read(before, v, mac) == Resume(InMeshId, [], before, v[1..], mac)
    ensures KindOf(v[0]) == KDuration ==> Read(before, v, mac) == Resume(InDuration, [], before, v[1..], mac)
  {
    hide Read, KindOf, ElementsOf, HexFits, IES, MESHID, DURATION, ErrorAt;
    Keywords();
    WordOfKind(v[0]);
    ReadHere(before, v, mac);
    if |v| == 1 {
      assert v[1..] == [];
      NothingMore(before + [Unfinished(v[0])], mac);
    } else {
      assert v[1..][0] == v[1] && v[1..][1..] == v[2..];
    }
  }

  /** The words that are clauses by themselves. */
  lemma WordStep(before: seq<Clause>, v: seq<string>, mac: string -> int)
    requires v != []
    ensures KindOf(v[0]) == KFlag ==> Read(before, v, mac) == Read(before + [FlagWord(v[0])], v[1..], mac)
    ensures KindOf(v[0]) == KMandatory ==> Read(before, v, mac) == Read(before + [DurationMandatory], v[1..], mac)
    ensures KindOf(v[0]) == KRandomise ==>
              |v[0]| >= 9 &&
              Read(before, v, mac) ==
              if mac(v[0][9..]) != 0 then Broken(mac(v[0][9..]), Macs(before)) else Read(before + [Randomise(v[0])], v[1..], mac)
    ensures KindOf(v[0]) == Foreign ==> Read(before, v, mac) == Broken(1, Macs(before))
  {
    hide Read, KindOf, DURATION_MANDATORY, ErrorAt;
    WordOfKind(v[0]);
    ReadHere(before, v, mac);
  }

  lemma PassiveStep(before: seq<Clause>, v: seq<string>, mac: string -> int)
    requires v != [] && KindOf(v[0]) == KPassive
    ensures Read(before, v, mac) == Resume(InDone, [], before + [Passive], v[1..], mac)
  {
    hide Read, KindOf, PASSIVE;
    ReadHere(before, v, mac);
    NothingMore(before + [Passive], mac);
    assert (before + [Passive])[..|before|] == before && Macs(before) + [] == Macs(before);
  }

  /** One more item of a list. */
  lemma OneMoreFreq(before: seq<Clause>, part: seq<string>, t: string)
    ensures var m := Gather(before + [Freq(part)]);
            Gather(before + [Freq(part + [t])]) ==
            m.(freqs := m.freqs + [(Width(before + [Freq(part)]), UintOf(t))])
    ensures Width(before + [Freq(part + [t])]) == Width(before + [Freq(part)]) + 1
  {
    hide Gather, Width, UintOf, FREQ;
    OneMoreClause(before, Freq(part));
    OneMoreClause(before, Freq(part + [t]));
    var first := Width(before) + 1;
    assert NumberedFreqs(part + [t], first) == NumberedFreqs(part, first) + [(first + |part|, UintOf(t))];
  }

  lemma OneMoreSsid(before: seq<Clause>, part: seq<string>, t: string)
    ensures var m := Gather(before + [Ssid(part)]);
            Gather(before + [Ssid(part + [t])]) == m.(ssids := m.ssids + [(Width(before + [Ssid(part)]), t)])
    ensures Width(before + [Ssid(part + [t])]) == Width(before + [Ssid(part)]) + 1
  {
    hide Gather, Width, SSID;
    OneMoreClause(before, Ssid(part));
    OneMoreClause(before, Ssid(part + [t]));
    var first := Width(before) + 1;
    assert NumberedSsids(part + [t], first) == NumberedSsids(part, first) + [(first + |part|, t)];
  }

  lemma EmptyLists(before: seq<Clause>)
    ensures Gather(before + [Freq([])]) == Gather(before).(haveFreqs := true)
    ensures Gather(before + [Ssid([])]) == Gather(before).(haveSsids := true)
    ensures Width(before + [Freq([])]) == Width(before + [Ssid([])]) == Width(before) + 1
  {
    hide Gather, Width, FREQ, SSID;
    OneMoreClause(before, Freq([]));
    OneMoreClause(before, Ssid([]));
    var m, first := Gather(before), Width(before) + 1;
    assert NumberedFreqs([], first) == [] && m.freqs + [] == m.freqs;
    assert NumberedSsids([], first) == [] && m.ssids + [] == m.ssids;
  }

  // ---------------------------------------------------------------- the cases of the loop

  datatype Turn = Again | Stop(err: int)

  /** State NONE, a word that needs more arguments. */
  method TurnBegin(s0: Vars, args: seq<string>, mac: string -> int, ghost before: seq<Clause>) returns (s: Vars)
    requires Inv(s0, args, mac, before, []) && s0.parse == InNone && s0.i < |args|
    requires KindOf(args[s0.i]) in {KFreq, KSsid, KIes, KMeshId, KDuration}
    ensures s.i == s0.i && Inv(s.(i := s.i + 1), args, mac, before, [])
  {
    hide Read, Resume, Gather, Width, KindOf, Randomised, IES, MESHID, DURATION;
    s := s0;
    ghost var v := args[s.i..];
    Tail(args, s.i);
    NoneResumes(before, [], v, mac);
    EmptyLists(before);
    var kind := KindOf(args[s.i]);
    if kind == KFreq {
      FreqBegins(before, v, mac);
      s := s.(parse := InFreq, m := s.m.(haveFreqs := true));
    } else if kind == KSsid {
      SsidBegins(before, v, mac);
      s := s.(parse := InSsid, m := s.m.(haveSsids := true));
    } else {
      OneBegins(before, v, mac);
      s := s.(parse := if kind == KIes then InIes else if kind == KMeshId then InMeshId else InDuration);
      OneMoreClause(before, Unfinished(IES));
      OneMoreClause(before, Unfinished(MESHID));
      OneMoreClause(before, Unfinished(DURATION));
    }
  }

  /** State NONE, a word that stands by itself or is not understood. */
  method TurnWord(s0: Vars, args: seq<string>, mac: string -> int, ghost before0: seq<Clause>)
      returns (turn: Turn, s: Vars, ghost before: seq<Clause>)
    requires Inv(s0, args, mac, before0, []) && s0.parse == InNone && s0.i < |args|
    requires KindOf(args[s0.i]) !in {KFreq, KSsid, KIes, KMeshId, KDuration}
    ensures turn.Again? ==> s.i == s0.i && Inv(s.(i := s.i + 1), args, mac, before, [])
    ensures turn.Stop? ==> Read([], args, mac) == Broken(turn.err, s.m.macs)
  {
    hide Read, Resume, Gather, Macs, Width, KindOf, Randomised, FlagOf, DURATION_MANDATORY, PASSIVE;
    s, before := s0, before0;
    ghost var v := args[s.i..];
    Tail(args, s.i);
    NoneResumes(before, [], v, mac);
    MacsGathered(before);
    WordStep(before, v, mac);
    var t, m := args[s.i], s.m;
    ghost var c := Passive;
    match KindOf(t) {
      case KFlag =>
        c := FlagWord(t);
        m := m.(flags := m.flags + {FlagOf(t)});
      case KMandatory =>
        c := DurationMandatory;
        m := m.(mandatory := true);
      case KRandomise =>
        c := Randomise(t);
        var err := mac(t[9..]);
        if err != 0 {
          return Stop(err), s, before;
        }
        m := m.(err := 0, macs := m.macs + [t[9..]], flags := m.flags + {RandomAddr});
      case KPassive =>
        PassiveStep(before, v, mac);
        s := s.(parse := InDone);
        m := m.(passive := true);
      case _ =>
        return Stop(1), s, before;
    }
    OneMoreClause(before, c);
    RandomisedOneMore(before, c);
    NoneResumes(before + [c], [], v[1..], mac);
    s, before := s.(m := m), before + [c];
    return Again, s, before;
  }

  /** States FREQ and SSID.  An argument that is not a frequency is looked at again in state NONE. */
  method TurnList(s0: Vars, args: seq<string>, mac: string -> int, ghost before0: seq<Clause>, ghost part0: seq<string>)
      returns (s: Vars, ghost before: seq<Clause>, ghost part: seq<string>)
    requires Inv(s0, args, mac, before0, part0) && (s0.parse == InFreq || s0.parse == InSsid) && s0.i < |args|
    ensures Inv(s.(i := s.i + 1), args, mac, before, part) && (s.parse == InNone ==> part == [])
    ensures (s.i == s0.i && s.parse == s0.parse) || (s.i == s0.i - 1 && s0.parse == InFreq && s.parse == InNone)
  {
    hide Read, Resume, Gather, Width, Randomised, Strtoul;
    s, before, part := s0, before0, part0;
    ghost var v := args[s.i..];
    Tail(args, s.i);
    if s.parse == InFreq {
      var (n, end) := Strtoul(args[s.i], 10);
      FreqStep(part, before, v, mac);
      if end != |args[s.i]| {
        s := s.(i := s.i - 1, parse := InNone);
        RandomisedOneMore(before, Freq(part));
        before, part := before + [Freq(part)], [];
        NoneResumes(before, part, v, mac);
        return;
      }
      OneMoreFreq(before, part, args[s.i]);
      s := s.(m := s.m.(freqs := s.m.freqs + [(s.i, n % TWO32)]));
    } else {
      SsidStep(part, before, v, mac);
      OneMoreSsid(before, part, args[s.i]);
      s := s.(m := s.m.(ssids := s.m.ssids + [(s.i, args[s.i])]));
    }
    part := part + [args[s.i]];
  }

  lemma OneStep(parse: ParseState, before: seq<Clause>, v: seq<string>, mac: string -> int)
    requires v != []
    ensures Resume(InIes, [], before, v, mac) ==
            if !HexFits(v[0], false) then OutOfBounds
            else if ElementsOf(v[0]).Some? then Read(before + [IesHex(v[0])], v[1..], mac)
            else Broken(ErrorAt(before, IES), Macs(before))
    ensures Resume(InMeshId, [], before, v, mac) == Read(before + [MeshId(v[0])], v[1..], mac)
    ensures Resume(InDuration, [], before, v, mac) == Read(before + [Duration(v[0])], v[1..], mac)
    ensures Resume(InDone, [], before, v, mac) == Broken(1, Macs(before))
  {
    hide Read, ElementsOf, HexFits, ErrorAt;
  }

  /** States IES, MESHID, DURATION and DONE. */
  method TurnOne(s0: Vars, args: seq<string>, mac: string -> int, ghost before0: seq<Clause>)
      returns (turn: Turn, s: Vars, ghost before: seq<Clause>)
    requires Inv(s0, args, mac, before0, []) && s0.parse in {InIes, InMeshId, InDuration, InDone} && s0.i < |args|
    requires Read([], args, mac) != OutOfBounds && '\0' !in args[s0.i]
    ensures turn.Again? ==> s.i == s0.i && Inv(s.(i := s.i + 1), args, mac, before, [])
    ensures turn.Stop? ==> Read([], args, mac) == Broken(turn.err, s.m.macs)
  {
    hide Read, Resume, Gather, Macs, Width, Randomised, ElementsOf, HexFits, KindOf, IES, MESHID, DURATION, MeshElement, Strtoul;
    s, before := s0, before0;
    ghost var v := args[s.i..];
    Tail(args, s.i);
    Keywords();
    MacsGathered(before);
    OneStep(s.parse, before, v, mac);
    OneMoreClause(before, Unfinished(IES));
    OneMoreClause(before, Unfinished(MESHID));
    OneMoreClause(before, Unfinished(DURATION));
    var t, m := args[s.i], s.m;
    ghost var c := Passive;
    if s.parse == InDone {
      return Stop(1), s, before;
    } else if s.parse == InIes {
      c := IesHex(t);
      var ies := ParseHex(t);
      m := m.(ies := ies);
      if ies.None? {
        return Stop(m.err), s, before;
      }
    } else if s.parse == InMeshId {
      c := MeshId(t);
      m := m.(meshid := Some(MeshElement(t)));
    } else {
      c := Duration(t);
      var (n, _) := Strtoul(t, 10);
      m := m.(duration := n % TWO32);
    }
    OneMoreClause(before, c);
    RandomisedOneMore(before, c);
    NoneResumes(before + [c], [], v[1..], mac);
    s, before := s.(parse := InNone, m := m), before + [c];
    return Again, s, before;
  }

  // ---------------------------------------------------------------- the whole handler

  lemma AtTheStart(args: seq<string>, mac: string -> int)
    ensures Inv(Vars(0, InNone, INITIAL), args, mac, [], [])
  {
    assert args[0..] == args;
  }

  lemma AtTheEnd(parse: ParseState, part: seq<string>, before: seq<Clause>, mac: string -> int)
    ensures Resume(parse, part, before, [], mac) == Complete(With(before, parse, part))
  {
    assert part + [] == part;
  }

  /** The part of `handle_scan` after the loop. */
  method BuildMessage(m: Memory) returns (err: int, msg: seq<Put>)
    ensures err == if m.mandatory && m.duration == 0 then -22 else 0
    ensures err == 0 ==> msg == MessageOf(m)
  {
    hide MacPuts;
    msg := MacPuts(m.macs);
    var flags, ssids := m.flags, m.ssids;
    msg := msg + When(m.ies.Some? || m.meshid.Some?, PutIe(ValueOr(m.ies) + ValueOr(m.meshid)));
    if !m.haveSsids {
      ssids := ssids + [(1, "")];
    }
    msg := msg + When(!m.passive, PutSsids(ssids));
    msg := msg + When(m.haveFreqs, PutFreqs(m.freqs));
    if !m.haveFreqs {
      flags := flags + {Colocated6GHz};
    }
    msg := msg + When(flags != {}, PutFlags(flags));
    msg := msg + When(m.duration != 0, PutDuration(m.duration % 0x1_0000));
    if m.mandatory {
      if m.duration == 0 {
        return -EINVAL, msg;
      }
      msg := msg + [PutDurationMandatory];
    }
    return 0, msg;
  }

  /**
   `handle_scan`, when there is room in the messages.  The loop ends although a turn may step `i` back,
   and the result is that of the reading.  When it stops early, the message holds the random addresses
   accepted by then, and nothing else.
   */
  method HandleScan(args: seq<string>, mac: string -> int) returns (err: int, msg: seq<Put>)
    requires Read([], args, mac) != OutOfBounds && forall i :: 0 <= i < |args| ==> '\0' !in args[i]
    ensures var r := Read([], args, mac);
            && (r.Broken? ==> err == r.err && msg == MacPuts(r.macs))
            && (r.Complete? ==>
                  var m := Gather(r.clauses);
                  && err == (if m.mandatory && m.duration == 0 then -22 else 0)
                  && (err == 0 ==> msg == MessageOf(m)))
    ensures Read([], args, mac).Complete? && err == 0 ==> Sends(msg, Read([], args, mac).clauses)
  {
    hide Read, Resume, Gather, Width, Randomised, KindOf, MessageOf, MacPuts, With, INITIAL, Sends;
    if Read([], args, mac).Complete? {
      ReadMessage(args, mac);
    }
    var s := Vars(0, InNone, INITIAL);
    ghost var before: seq<Clause> := [];
    ghost var part: seq<string> := [];
    AtTheStart(args, mac);
    while s.i < |args|
      invariant Inv(s, args, mac, before, part)
      invariant s.parse != InFreq && s.parse != InSsid ==> part == []
      decreases |args| - s.i, s.parse == InFreq
    {
      var turn := Again;
      if s.parse == InFreq || s.parse == InSsid {
        s, before, part := TurnList(s, args, mac, before, part);
      } else if s.parse != InNone {
        turn, s, before := TurnOne(s, args, mac, before);
      } else if KindOf(args[s.i]) in {KFreq, KSsid, KIes, KMeshId, KDuration} {
        s := TurnBegin(s, args, mac, before);
      } else {
        turn, s, before := TurnWord(s, args, mac, before);
      }
      if turn.Stop? {
        return turn.err, MacPuts(s.m.macs);
      }
      s := s.(i := s.i + 1);
    }
    AtTheEnd(s.parse, part, before, mac);
    assert args[s.i..] == [];
    err, msg := BuildMessage(s.m);
  }

  /** No successful parse chooses both passive scanning and a list of names. */
  lemma NeverPassiveWithSsids(args: seq<string>, mac: string -> int)
    requires Read([], args, mac).Complete?
    ensures var m := Gather(Read([], args, mac).clauses); !(m.passive && m.haveSsids)
  {
    hide Read, Gather;
    var cs := Read([], args, mac).clauses;
    FlagsComeFromClauses(cs);
    forall j, k | 0 <= j < |cs| && 0 <= k < |cs|
      ensures !(cs[j].Passive? && cs[k].Ssid?)
    {
      PassiveHasNoSsids(args, mac, j, k);
    }
  }
}
