/** The loop of `handle_tid_config` (wifi/iw/interface.c), proved to follow the reading of module TidConfig. */
module TidConfigParser {
  import opened CNumbers
  import opened Options
  import opened TidConfig
  import opened TidMessage
  import BitratesParser

  // ---------------------------------------------------------------- the handler

  datatype Vars = Vars(argc: nat, argv: seq<string>, state: Phase, tidsNum: nat, arrayOpen: bool, entryOpen: bool,
                       msg: seq<Event>)

  /** The nests that are open, and the number of the entry. */
  ghost predicate NestsAgree(s: Vars, c: Config) {
    && (s.arrayOpen <==> c.entries != []) && (s.entryOpen <==> c.entries != [])
    && s.tidsNum == (if c.entries == [] then 0 else |c.entries| - 1)
    && s.msg == OpenMessage(c)
  }

  /** The handler is in the state that the clauses lead to, or about to read a mask. */
  ghost predicate StateAgrees(s: Vars, before: seq<Clause>, c: Config) {
    && (s.state == PhaseAfter(before) || (s.state == PsTids && s.argv != [] && KindOf(s.argv[0]) == KTids))
    && (PhaseAfter(before) == PsConf ==> c.entries != [])
  }

  ghost predicate Inv(s: Vars, args: seq<string>, before: seq<Clause>, cx: Context) {
    && s.argc == |s.argv| <= |args| && s.argv == args[|args| - s.argc..]
    && Read([], args, cx) == Read(before, s.argv, cx) && StaysDefined(before, s.argv, cx)
    && NestsAgree(s, ConfigOf(before, cx)) && StateAgrees(s, before, ConfigOf(before, cx))
  }

  lemma OneMoreClause(cs: seq<Clause>, c: Clause, cx: Context)
    ensures ConfigOf(cs + [c], cx) == AddClause(ConfigOf(cs, cx), c, cx)
    ensures PhaseAfter(cs + [c]) == if c.Peer? then PsTids else PsConf
  {
    assert (cs + [c])[..|cs|] == cs;
  }

  lemma Suffix(argv: seq<string>, args: seq<string>, k: nat)
    requires |argv| <= |args| && argv == args[|args| - |argv|..] && k <= |argv|
    ensures argv[k..] == args[|args| - (|argv| - k)..]
  {
  }

  lemma ReadHere(before: seq<Clause>, args: seq<string>, cx: Context)
    requires args != []
    ensures var r := ReadClause(PhaseAfter(before), args, cx);
            Read(before, args, cx) ==
            if r.Bad? then Bad(r.code) else Read(before + [r.value], args[|Words(r.value)|..], cx)
    ensures var r := ReadClause(PhaseAfter(before), args, cx);
            StaysDefined(before, args, cx) ==>
              && (PhaseAfter(before) == PsConf ==> ItemDefined(args, cx))
              && (r.Good? ==> StaysDefined(before + [r.value], args[|Words(r.value)|..], cx))
  {
    hide ReadClause, Words;
  }

  datatype Turn = Again | Stop(ret: int)

  /** An address comes before all else. */
  lemma PeerIsFirst(before: seq<Clause>, c: Clause, cx: Context)
    requires PhaseAfter(before) == PsAddr && c.Peer?
    ensures before == [] && ConfigOf(before, cx) == EMPTY && OpenMessage(EMPTY) == []
    ensures var d := AddClause(EMPTY, c, cx); d.entries == [] && OpenMessage(d) == PeerEvents(d)
  {
  }

  /** State PS_ADDR, at an address. */
  method TurnPeer(s0: Vars, args: seq<string>, ghost before0: seq<Clause>, cx: Context)
      returns (turn: Turn, s: Vars, ghost before: seq<Clause>)
    requires Inv(s0, args, before0, cx) && s0.argc > 0 && s0.state == PsAddr && KindOf(s0.argv[0]) == KPeer
    ensures turn.Again? ==> Inv(s, args, before, cx) && s.argc < s0.argc
    ensures turn.Stop? ==> Read([], args, cx) == Bad(turn.ret)
  {
    hide KindOf, Read, StaysDefined;
    s, before := s0, before0;
    ReadHere(before, s.argv, cx);
    if s.argc < 2 {
      return Stop(HANDLER_RET_USAGE), s, before;
    }
    var peer := cx.mac(s.argv[1]);
    if peer.None? {
      return Stop(2), s, before;
    }
    Suffix(s.argv, args, 2);
    ghost var c := Peer(s.argv[1]);
    OneMoreClause(before, c, cx);
    PeerIsFirst(before, c, cx);
    hide OpenMessage, ConfigOf, ReadClause;
    s, before := s.(msg := s.msg + [Put(MacAttr(peer.value))], argc := s.argc - 2, argv := s.argv[2..], state := PsTids),
                 before + [c];
    return Again, s, before;
  }

  /** State PS_TIDS. */
  method TurnTids(s0: Vars, args: seq<string>, ghost before0: seq<Clause>, cx: Context)
      returns (turn: Turn, s: Vars, ghost before: seq<Clause>)
    requires Inv(s0, args, before0, cx) && s0.argc > 0 && s0.state == PsTids
    ensures turn.Again? ==> Inv(s, args, before, cx) && s.argc < s0.argc
    ensures turn.Stop? ==> Read([], args, cx) == Bad(turn.ret)
  {
    hide KindOf, Read, StaysDefined, Strtol, OpenMessage;
    s, before := s0, before0;
    ReadHere(before, s.argv, cx);
    if KindOf(s.argv[0]) != KTids {
      return Stop(HANDLER_RET_USAGE), s, before;
    }
    if s.argc < 2 {
      return Stop(HANDLER_RET_USAGE), s, before;
    }
    ghost var c := ConfigOf(before, cx);
    if !s.arrayOpen {
      s := s.(msg := s.msg + [OpenConfig], arrayOpen := true);
    }
    if s.entryOpen {
      s := s.(msg := s.msg + [Close], tidsNum := s.tidsNum + 1);
    }
    s := s.(msg := s.msg + [OpenEntry(s.tidsNum)], entryOpen := true);
    var (mask, end) := Strtol(s.argv[1]);
    var attr := TidsAttr(mask % 0x1_0000);
    s := s.(msg := s.msg + [Put(attr)]);
    if end != |s.argv[1]| {
      return Stop(2), s, before;
    }
    NextEntry(c, [attr]);
    assert Puts([attr]) == [Put(attr)];
    Suffix(s.argv, args, 2);
    OneMoreClause(before, Tids(s.argv[1]), cx);
    before := before + [Tids(s.argv[1])];
    s := s.(argc := s.argc - 2, argv := s.argv[2..], state := PsConf);
    return Again, s, before;
  }

  /** `toggle_tid_param` */
  method ToggleTidParam(word: string, value: string) returns (ret: int, puts: seq<Event>)
    ensures ret == if value == "on" || value == "off" then 0 else 2
    ensures ret == 0 ==> puts == [Put(ToggleAttr(word, value == "on"))]
  {
    puts := [];
    var val := false;
    if value == "on" {
      val := true;
    } else if value == "off" {
      val := false;
    } else {
      return 2, puts;
    }
    puts := [Put(ToggleAttr(word, val))];
    return 0, puts;
  }

  /** The item "bitrates". */
  method TakeBitrates(argv: seq<string>, cx: Context) returns (r: Outcome<Item>, puts: seq<Event>)
    requires |argv| >= 2 && (argv[1] == "fixed" || argv[1] == "limit" ==> BitratesParser.Defined(argv[2..], cx.lib))
    ensures r.Good? ==> ReadBitrates(argv, cx) == Good(Conf(r.value)) && puts == Puts(ItemAttrs(r.value))
    ensures r.Bad? ==> ReadBitrates(argv, cx) == Bad(r.code)
  {
    hide BitratesParser.Accepted, BitratesParser.Defined, BitratesParser.Returned, BitratesParser.Describes;
    puts := [];
    if argv[1] != AUTO && argv[1] != "fixed" && argv[1] != "limit" {
      return Bad(2), puts;
    }
    puts := [Put(RateTypeAttr(argv[1]))];
    if argv[1] == AUTO {
      return Good(Auto), puts;
    }
    var args := argv[2..];
    var ret, _, _, _ := BitratesParser.SetBitrates(args, true, cx.lib);
    BitratesParser.AllOrNothing(args, cx.lib);
    if ret < 2 {
      return Bad(1), puts;
    }
    puts := puts + [Put(RatesAttr(args))];
    return Good(Rates(argv[1], args)), puts;
  }

  /** State PS_CONF: the item read at the head, with its attributes, or the value returned. */
  method TakeItem(argv: seq<string>, cx: Context) returns (r: Outcome<Item>, puts: seq<Event>)
    requires argv != [] && KindOf(argv[0]) != KTids && ItemDefined(argv, cx)
    ensures r.Good? ==> ReadClause(PsConf, argv, cx) == Good(Conf(r.value)) && puts == Puts(ItemAttrs(r.value))
    ensures r.Bad? ==> ReadClause(PsConf, argv, cx) == Bad(r.code)
  {
    hide KindOf, Strtol, ReadBitrates, BitratesParser.Defined;
    puts := [];
    var kind := KindOf(argv[0]);
    if kind == KOverride {
      puts := [Put(OverrideAttr)];
      return Good(Override), puts;
    }
    if kind != KToggle && kind != KRetry && kind != KBitrates {
      return Bad(HANDLER_RET_USAGE), puts;
    }
    if |argv| < 2 {
      return Bad(HANDLER_RET_USAGE), puts;
    }
    if kind == KToggle {
      var ret;
      ret, puts := ToggleTidParam(argv[0], argv[1]);
      if ret != 0 {
        return Bad(ret), puts;
      }
      return Good(Toggle(argv[0], argv[1])), puts;
    }
    if kind == KRetry {
      var (n, end) := Strtol(argv[1]);
      puts := [Put(RetryAttr(argv[0], n % 256))];
      if end != |argv[1]| {
        return Bad(2), puts;
      }
      return Good(Retry(argv[0], argv[1])), puts;
    }
    r, puts := TakeBitrates(argv, cx);
  }

  method TurnConf(s0: Vars, args: seq<string>, ghost before0: seq<Clause>, cx: Context)
      returns (turn: Turn, s: Vars, ghost before: seq<Clause>)
    requires Inv(s0, args, before0, cx) && s0.argc > 0 && s0.state == PsConf && KindOf(s0.argv[0]) != KTids
    ensures turn.Again? ==> Inv(s, args, before, cx) && s.argc < s0.argc
    ensures turn.Stop? ==> Read([], args, cx) == Bad(turn.ret)
  {
    hide KindOf, Read, StaysDefined, ItemDefined, OpenMessage, ItemWords, ReadClause, ItemAttrs;
    s, before := s0, before0;
    ReadHere(before, s.argv, cx);
    var r, puts := TakeItem(s.argv, cx);
    match r {
      case Bad(e) =>
        return Stop(e), s, before;
      case Good(i) =>
        var used := |ItemWords(i)|;
        OneMoreClause(before, Conf(i), cx);
        MoreAttrs(ConfigOf(before, cx), ItemAttrs(i));
        Suffix(s.argv, args, used);
        s, before := s.(msg := s.msg + puts, argc := s.argc - used, argv := s.argv[used..]), before + [Conf(i)];
        return Again, s, before;
    }
  }

  lemma AtTheEnd(before: seq<Clause>, cx: Context)
    ensures Read(before, [], cx) == Good(before)
  {
  }

  /** One turn of the loop.  Two of the transitions use up no argument: they lead to state PS_TIDS. */
  method OneTurn(s0: Vars, args: seq<string>, ghost before0: seq<Clause>, cx: Context)
      returns (turn: Turn, s: Vars, ghost before: seq<Clause>)
    requires Inv(s0, args, before0, cx) && s0.argc > 0
    ensures turn.Again? ==> Inv(s, args, before, cx)
    ensures turn.Again? ==> s.argc < s0.argc || (s.argc == s0.argc && s0.state != PsTids && s.state == PsTids)
    ensures turn.Stop? ==> Read([], args, cx) == Bad(turn.ret)
  {
    hide Read, StaysDefined, KindOf, OpenMessage;
    s, before := s0, before0;
    if s.state == PsTids {
      turn, s, before := TurnTids(s, args, before, cx);
    } else if KindOf(s.argv[0]) == KTids {
      turn, s := Again, s.(state := PsTids);
    } else if s.state == PsConf {
      turn, s, before := TurnConf(s, args, before, cx);
    } else if KindOf(s.argv[0]) == KPeer {
      turn, s, before := TurnPeer(s, args, before, cx);
    } else {
      ReadHere(before, s.argv, cx);
      turn := Stop(HANDLER_RET_USAGE);
    }
  }

  /** The end of the handler: open nests are closed. */
  method CloseNests(s: Vars, ghost c: Config) returns (msg: seq<Event>)
    requires NestsAgree(s, c)
    ensures msg == Message(c) && Depth(msg, 0) == Some(0)
  {
    hide OpenMessage, Message, Depth;
    CloseMessage(c);
    MessageIsClosed(c);
    msg := s.msg;
    if s.entryOpen {
      msg := msg + [Close];
    }
    if s.arrayOpen {
      msg := msg + [Close];
    }
  }

  /**
   `handle_tid_config`, when there is room in the message.  It succeeds exactly when the arguments have a
   reading, and then the message is the one for the configuration read, with every nest closed.
   */
  method HandleTidConfig(args: seq<string>, cx: Context) returns (ret: int, msg: seq<Event>)
    requires StaysDefined([], args, cx)
    ensures var r := Read([], args, cx);
            && (r.Bad? ==> ret == r.code && ret != 0)
            && (r.Good? ==> ret == 0 && msg == Message(ConfigOf(r.value, cx)) && Depth(msg, 0) == Some(0))
    ensures Read([], args, cx).Good? ==> SendsInOrder(msg, Read([], args, cx).value, cx)
  {
    hide Read, StaysDefined, KindOf, NestsAgree, StateAgrees, Message, Depth, ConfigOf, SendsInOrder;
    if Read([], args, cx).Good? {
      ReadMessage(args, cx);
    }
    var s := Vars(|args|, args, PsAddr, 0, false, false, []);
    ghost var before: seq<Clause> := [];
    AtTheStart(s, args, cx);
    FailuresAreNotZero([], args, cx);
    while s.argc != 0
      invariant Inv(s, args, before, cx)
      decreases s.argc, s.state != PsTids
    {
      var turn;
      turn, s, before := OneTurn(s, args, before, cx);
      if turn.Stop? {
        return turn.ret, [];
      }
    }
    AtTheEnd(before, cx);
    msg := CloseNests(s, ConfigOf(before, cx));
    ret := 0;
  }

  lemma AtTheStart(s: Vars, args: seq<string>, cx: Context)
    requires StaysDefined([], args, cx) && s == Vars(|args|, args, PsAddr, 0, false, false, [])
    ensures Inv(s, args, [], cx)
  {
    assert args[0..] == args;
  }
}
