/**
 TID configuration: `handle_tid_config` (wifi/iw/interface.c).  The reference reads the arguments as a
 list of clauses and the message as a list of entries; the handler is a state machine that opens and
 closes nested attributes as it goes.
 */
module TidConfig {
  import opened Bitrates
  import opened BitratesParser
  import opened Bytes
  import opened CNumbers
  import opened Options
  import opened UnreadWords

  const HANDLER_RET_USAGE := 1

  // ---------------------------------------------------------------- clauses

  datatype Item =
    | Override
    | Toggle(word: string, value: string)
    | Retry(word: string, number: string)
    | Auto
    | Rates(kind: string, args: seq<string>)

  datatype Clause = Peer(address: string) | Tids(mask: string) | Conf(item: Item)

  const PEER := "peer"
  const TIDS := "tids"
  const OVERRIDE := "override"
  const BITRATES := "bitrates"
  const AUTO := "auto"

  function ItemWords(i: Item): (w: seq<string>)
    ensures w != []
  {
    match i
    case Override => [OVERRIDE]
    case Toggle(word, value) => [word, value]
    case Retry(word, number) => [word, number]
    case Auto => [BITRATES, AUTO]
    case Rates(kind, args) => [BITRATES, kind] + args
  }

  function Words(c: Clause): (w: seq<string>)
    ensures w != []
  {
    match c
    case Peer(address) => [PEER, address]
    case Tids(mask) => [TIDS, mask]
    case Conf(item) => ItemWords(item)
  }

  datatype Kind = KPeer | KTids | KOverride | KToggle | KRetry | KBitrates | Foreign

  /** The comparisons of an argument with the words that begin clauses. */
  function KindOf(t: string): Kind {
    if t == PEER then KPeer
    else if t == TIDS then KTids
    else if t == OVERRIDE then KOverride
    else if t == "ampdu" || t == "amsdu" || t == "noack" || t == "rtscts" then KToggle
    else if t == "sretry" || t == "lretry" then KRetry
    else if t == BITRATES then KBitrates
    else Foreign
  }

  /** What the library functions make of arguments. */
  datatype Context = Context(mac: string -> Option<seq<byte>>, lib: Library)

  /** The token is a number to its end. */
  predicate IsNumber(t: string) {
    Strtol(t).1 == |t|
  }

  // ---------------------------------------------------------------- reading

  datatype Phase = PsAddr | PsTids | PsConf

  /** What may come after some clauses. */
  function PhaseAfter(before: seq<Clause>): Phase {
    if before == [] then PsAddr else if before[|before| - 1].Peer? then PsTids else PsConf
  }

  datatype Outcome<+T> = Good(value: T) | Bad(code: int)

  function ReadTids(args: seq<string>): Outcome<Clause>
    requires args != []
  {
    if |args| < 2 then Bad(HANDLER_RET_USAGE) else if IsNumber(args[1]) then Good(Tids(args[1])) else Bad(2)
  }

  /** The word "bitrates" and what follows. */
  ghost function ReadBitrates(args: seq<string>, cx: Context): (r: Outcome<Clause>)
    requires |args| >= 2
    ensures r.Good? ==> |Words(r.value)| <= |args|
  {
    if args[1] == AUTO then Good(Conf(Auto))
    else if args[1] != "fixed" && args[1] != "limit" then Bad(2)
    else if Accepted(args[2..], cx.lib) && |args| >= 4 then Good(Conf(Rates(args[1], args[2..])))
    else Bad(1)
  }

  ghost function ReadItem(args: seq<string>, cx: Context): (r: Outcome<Clause>)
    requires args != []
    ensures r.Good? ==> |Words(r.value)| <= |args|
  {
    var kind := KindOf(args[0]);
    if kind == KOverride then Good(Conf(Override))
    else if kind != KToggle && kind != KRetry && kind != KBitrates then Bad(HANDLER_RET_USAGE)
    else if |args| < 2 then Bad(HANDLER_RET_USAGE)
    else if kind == KToggle then
      if args[1] == "on" || args[1] == "off" then Good(Conf(Toggle(args[0], args[1]))) else Bad(2)
    else if kind == KRetry then
      if IsNumber(args[1]) then Good(Conf(Retry(args[0], args[1]))) else Bad(2)
    else ReadBitrates(args, cx)
  }

  ghost function ReadClause(phase: Phase, args: seq<string>, cx: Context): (r: Outcome<Clause>)
    requires args != []
    ensures r.Good? ==> |Words(r.value)| <= |args|
  {
    if KindOf(args[0]) == KTids then ReadTids(args)
    else
      match phase
      case PsAddr =>
        if KindOf(args[0]) != KPeer || |args| < 2 then Bad(HANDLER_RET_USAGE)
        else if cx.mac(args[1]).Some? then Good(Peer(args[1])) else Bad(2)
      case PsTids => Bad(HANDLER_RET_USAGE)
      case PsConf => ReadItem(args, cx)
  }

  ghost function Read(before: seq<Clause>, args: seq<string>, cx: Context): Outcome<seq<Clause>>
    decreases |args|
  {
    if args == [] then Good(before)
    else
      match ReadClause(PhaseAfter(before), args, cx)
      case Bad(e) => Bad(e)
      case Good(c) => Read(before + [c], args[|Words(c)|..], cx)
  }

  /** The handler fails with a code other than zero. */
  lemma {:induction false} FailuresAreNotZero(before: seq<Clause>, args: seq<string>, cx: Context)
    ensures Read(before, args, cx).Bad? ==> Read(before, args, cx).code != 0
    decreases |args|
  {
    if args != [] {
      var r := ReadClause(PhaseAfter(before), args, cx);
      if r.Good? {
        hide ReadClause, Words;
        FailuresAreNotZero(before + [r.value], args[|Words(r.value)|..], cx);
      } else {
        hide KindOf, Accepted, IsNumber;
        assert r.code != 0;
      }
    }
  }

  /** The item at the head, if it lists rates, is one for which `set_bitrates` is defined. */
  ghost predicate ItemDefined(args: seq<string>, cx: Context) {
    |args| >= 2 && KindOf(args[0]) == KBitrates && (args[1] == "fixed" || args[1] == "limit") ==> Defined(args[2..], cx.lib)
  }

  /** What the handler does is defined: where it comes to a list of rates, `set_bitrates` is defined for it. */
  ghost predicate StaysDefined(before: seq<Clause>, args: seq<string>, cx: Context)
    decreases |args|
  {
    args != [] ==>
      var r := ReadClause(PhaseAfter(before), args, cx);
      && (PhaseAfter(before) == PsConf ==> ItemDefined(args, cx))
      && (r.Good? ==> StaysDefined(before + [r.value], args[|Words(r.value)|..], cx))
  }

  // ---------------------------------------------------------------- the reading is the only one

  ghost predicate ItemOk(i: Item, after: seq<string>, cx: Context) {
    match i
    case Override => true
    case Toggle(word, value) => KindOf(word) == KToggle && (value == "on" || value == "off")
    case Retry(word, number) => KindOf(word) == KRetry && IsNumber(number)
    case Auto => true
    case Rates(kind, args) => (kind == "fixed" || kind == "limit") && |args| >= 2 && Accepted(args, cx.lib) && after == []
  }

  /**
   A clause in its place: an address only first, items only after some mask, and a list of rates only at
   the end of the arguments.
   */
  ghost predicate InOrder(phase: Phase, c: Clause, after: seq<string>, cx: Context) {
    match c
    case Peer(address) => phase == PsAddr && cx.mac(address).Some?
    case Tids(mask) => IsNumber(mask)
    case Conf(item) => phase == PsConf && ItemOk(item, after, cx)
  }

  ghost predicate Writes(before: seq<Clause>, args: seq<string>, cs: seq<Clause>, cx: Context)
    decreases cs
  {
    if cs == [] then args == []
    else
      var w := Words(cs[0]);
      w <= args && InOrder(PhaseAfter(before), cs[0], args[|w|..], cx) && Writes(before + [cs[0]], args[|w|..], cs[1..], cx)
  }

  lemma Keywords()
    ensures KindOf(PEER) == KPeer && KindOf(TIDS) == KTids && KindOf(OVERRIDE) == KOverride && KindOf(BITRATES) == KBitrates
    ensures AUTO != "fixed" && AUTO != "limit"
  {
  }

  lemma WordOfKind(t: string)
    ensures KindOf(t) == KPeer ==> t == PEER
    ensures KindOf(t) == KTids ==> t == TIDS
    ensures KindOf(t) == KOverride ==> t == OVERRIDE
    ensures KindOf(t) == KBitrates ==> t == BITRATES
  {
  }

  lemma ReadClauseIff(phase: Phase, args: seq<string>, c: Clause, cx: Context)
    requires args != []
    ensures ReadClause(phase, args, cx) == Good(c) <==> Words(c) <= args && InOrder(phase, c, args[|Words(c)|..], cx)
  {
    hide KindOf, IsNumber, Accepted, PEER, TIDS, OVERRIDE, BITRATES, AUTO;
    Keywords();
    WordOfKind(args[0]);
    if c.Conf? {
      if c.item.Rates? {
        RatesAtHead(args, c.item.kind, c.item.args);
      }
    }
  }

  lemma RatesAtHead(args: seq<string>, kind: string, l: seq<string>)
    ensures [BITRATES, kind] + l <= args && args[2 + |l|..] == [] <==>
            |args| >= 2 && args[0] == BITRATES && args[1] == kind && l == args[2..]
  {
    hide BITRATES;
    if |args| >= 2 && args[0] == BITRATES && args[1] == kind && l == args[2..] {
      assert args == [BITRATES, kind] + l;
    }
    if [BITRATES, kind] + l <= args && args[2 + |l|..] == [] {
      assert args == [BITRATES, kind] + l;
    }
  }

  /** The reading is the only one: it succeeds exactly when the arguments write the clauses, in order. */
  lemma {:induction false} ReadIff(before: seq<Clause>, args: seq<string>, cs: seq<Clause>, cx: Context)
    ensures Read(before, args, cx) == Good(before + cs) <==> Writes(before, args, cs, cx)
    decreases |args|
  {
    hide ReadClause, InOrder, Words;
    if args == [] {
      assert before + cs == before <==> cs == [];
    } else {
      if cs != [] {
        ReadClauseIff(PhaseAfter(before), args, cs[0], cx);
      }
      match ReadClause(PhaseAfter(before), args, cx)
      case Bad(_) =>
      case Good(c) =>
        var after := args[|Words(c)|..];
        if cs != [] && cs[0] == c {
          ReadIff(before + [c], after, cs[1..], cx);
          assert before + [c] + cs[1..] == before + cs;
        } else {
          ReadExtends(before + [c], after, cx);
          var r := Read(before, args, cx);
          assert r.Good? ==> |r.value| > |before| && r.value[|before|] == (before + [c])[|before|] == c;
          assert cs != [] ==> (before + cs)[|before|] == cs[0];
        }
    }
  }

  lemma {:induction false} ReadExtends(before: seq<Clause>, args: seq<string>, cx: Context)
    ensures Read(before, args, cx).Good? ==> before <= Read(before, args, cx).value
    decreases |args|
  {
    hide ReadClause;
    if args != [] && ReadClause(PhaseAfter(before), args, cx).Good? {
      var c := ReadClause(PhaseAfter(before), args, cx).value;
      ReadExtends(before + [c], args[|Words(c)|..], cx);
    }
  }

  lemma NoArgumentsNoClauses(before: seq<Clause>, cs: seq<Clause>, cx: Context)
    requires Writes(before, [], cs, cx)
    ensures cs == []
  {
  }

  lemma {:induction false} RatesEnd(before: seq<Clause>, args: seq<string>, cs: seq<Clause>, cx: Context, k: nat)
    requires Writes(before, args, cs, cx) && k < |cs| && cs[k].Conf? && cs[k].item.Rates?
    ensures k == |cs| - 1
    decreases k
  {
    var after := args[|Words(cs[0])|..];
    if k > 0 {
      RatesEnd(before + [cs[0]], after, cs[1..], cx, k - 1);
    } else {
      assert after == [];
      NoArgumentsNoClauses(before + [cs[0]], cs[1..], cx);
    }
  }

  // ---------------------------------------------------------------- where the code is defined

  /** The list of rates that a clause gives, if any, can be stored. */
  ghost predicate RatesFit(c: Clause, cx: Context) {
    c.Conf? && c.item.Rates? ==> Storable(Clauses(c.item.args), cx.lib)
  }

  lemma ItemIsDefined(before: seq<Clause>, args: seq<string>, cx: Context)
    requires args != [] && ReadClause(PhaseAfter(before), args, cx).Good?
    ensures (PhaseAfter(before) == PsConf ==> ItemDefined(args, cx)) <==> RatesFit(ReadClause(PhaseAfter(before), args, cx).value, cx)
  {
    hide KindOf, IsNumber, Accepted, Defined, Storable, Clauses;
    if |args| >= 2 && Accepted(args[2..], cx.lib) {
      WhenAcceptedIsDefined(args[2..], cx.lib);
    }
    assert AUTO != "fixed" && AUTO != "limit";
  }

  /** For arguments that have a reading, what the handler does is defined if and only if the lists of rates can be stored. */
  lemma {:induction false} WhenAReadingIsDefined(before: seq<Clause>, args: seq<string>, cx: Context)
    requires Read(before, args, cx).Good?
    ensures before <= Read(before, args, cx).value
    ensures StaysDefined(before, args, cx) <==>
            var cs := Read(before, args, cx).value; forall i :: |before| <= i < |cs| ==> RatesFit(cs[i], cx)
    decreases |args|
  {
    hide ReadClause, ItemDefined, RatesFit, Words;
    if args != [] {
      var c := ReadClause(PhaseAfter(before), args, cx).value;
      WhenAReadingIsDefined(before + [c], args[|Words(c)|..], cx);
      ItemIsDefined(before, args, cx);
      var cs := Read(before, args, cx).value;
      assert cs[|before|] == (before + [c])[|before|] == c;
    }
  }

  /** Nothing can follow a list of rates: it takes all that is left. */
  lemma RatesComeLast(args: seq<string>, cx: Context, k: nat)
    requires Read([], args, cx).Good? && k < |Read([], args, cx).value|
    ensures var cs := Read([], args, cx).value;
            cs[k].Conf? && cs[k].item.Rates? ==> k == |cs| - 1
  {
    var cs := Read([], args, cx).value;
    assert [] + cs == cs;
    ReadIff([], args, cs, cx);
    if cs[k].Conf? && cs[k].item.Rates? {
      RatesEnd([], args, cs, cx, k);
    }
  }

  /**
   A list of rates that makes a mask is refused all the same if and only if it has fewer than two words:
   `set_bitrates` returns the number of words, and its caller takes less than two for an error.
   */
  lemma WhenRatesAreRefused(kind: string, rates: seq<string>, cx: Context)
    requires (kind == "fixed" || kind == "limit") && Accepted(rates, cx.lib)
    ensures ReadBitrates([BITRATES, kind] + rates, cx) == if |rates| < 2 then Bad(1) else Good(Conf(Rates(kind, rates)))
  {
    hide Accepted;
    assert ([BITRATES, kind] + rates)[2..] == rates;
    assert "fixed" != AUTO && "limit" != AUTO;
  }

  /** The argument list "sgi-5" is refused in this way. */
  lemma OneGuardIsRefused(cx: Context)
    ensures Accepted(["sgi-5"], cx.lib) && ReadBitrates([BITRATES, "fixed"] + ["sgi-5"], cx) == Bad(1)
  {
    hide Accepted, ReadBitrates;
    OneGuardIsAccepted(cx.lib);
    WhenRatesAreRefused("fixed", ["sgi-5"], cx);
  }

  /**
   Settings that follow a list of rates are lost where it ends in "sgi" or "lgi": "bitrates fixed legacy-5 6
   sgi-5 ampdu on" is accepted, and its masks are those of "legacy-5 6 sgi-5".
   */
  lemma SettingsAfterGuardAreLost(cx: Context, b: BandMask, x: Band)
    requires cx.lib.rate("6") == Finite(6.0)
    ensures var args := ["legacy-5", "6", "sgi-5", "ampdu", "on"];
            && ReadBitrates([BITRATES, "fixed"] + args, cx) == Good(Conf(Rates("fixed", args)))
            && (Describes(b, Clauses(args), x, cx.lib) <==> Describes(b, Clauses(args[..3]), x, cx.lib))
  {
    hide ReadBitrates, Accepted, Clauses, Describes;
    var args := ["legacy-5", "6", "sgi-5", "ampdu", "on"];
    LostSettings(b, x, cx.lib);
    WhenRatesAreRefused("fixed", args, cx);
    assert args[..3] == ["legacy-5", "6", "sgi-5"];
  }

  /** Nor need there be such a section: "bitrates fixed he-gi-5 ampdu on 3.2" has the masks of "he-gi-5 3.2". */
  lemma SettingsBeforeGiAreLost(cx: Context, b: BandMask, x: Band)
    ensures var args := ["he-gi-5", "ampdu", "on", "3.2"];
            && ReadBitrates([BITRATES, "fixed"] + args, cx) == Good(Conf(Rates("fixed", args)))
            && (Describes(b, Clauses(args), x, cx.lib) <==> Describes(b, Clauses(["he-gi-5", "3.2"]), x, cx.lib))
  {
    hide ReadBitrates, Accepted, Clauses, Describes;
    OverwrittenSettings(b, x, cx.lib);
    WhenRatesAreRefused("fixed", ["he-gi-5", "ampdu", "on", "3.2"], cx);
  }

  // ---------------------------------------------------------------- words and codes, one by one

  /** The words that begin clauses. */
  lemma WhichWordsBegin(t: string)
    ensures (KindOf(t) == KPeer <==> t == "peer") && (KindOf(t) == KTids <==> t == "tids")
    ensures (KindOf(t) == KOverride <==> t == "override") && (KindOf(t) == KBitrates <==> t == "bitrates")
    ensures KindOf(t) == KToggle <==> t in {"ampdu", "amsdu", "noack", "rtscts"}
    ensures KindOf(t) == KRetry <==> t in {"sretry", "lretry"}
  {
  }

  /** How the clauses are written. */
  lemma HowClausesAreWritten(t: string, u: string, l: seq<string>)
    ensures Words(Peer(t)) == ["peer", t] && Words(Tids(t)) == ["tids", t] && Words(Conf(Override)) == ["override"]
    ensures Words(Conf(Toggle(t, u))) == [t, u] == Words(Conf(Retry(t, u)))
    ensures Words(Conf(Auto)) == ["bitrates", "auto"] && Words(Conf(Rates(t, l))) == ["bitrates", t] + l
  {
  }

  /** The argument of the word at the head is not what that word takes. */
  predicate BadArgument(word: string, t: string, cx: Context) {
    if word == "peer" then cx.mac(t).None?
    else if word == "tids" || word == "sretry" || word == "lretry" then !IsNumber(t)
    else if word == "bitrates" then t != "auto" && t != "fixed" && t != "limit"
    else word in {"ampdu", "amsdu", "noack", "rtscts"} && t != "on" && t != "off"
  }

  /** The word may stand at the head in its phase. */
  predicate Expected(phase: Phase, word: string) {
    || word == "tids" || (word == "peer" && phase == PsAddr)
    || (phase == PsConf && word in {"override", "ampdu", "amsdu", "noack", "rtscts", "sretry", "lretry", "bitrates"})
  }

  /** The code is 2 if and only if the word is expected and its argument is bad, and 1 in all other failures. */
  lemma WhichCodeIsReturned(phase: Phase, args: seq<string>, cx: Context)
    requires args != [] && ReadClause(phase, args, cx).Bad?
    ensures ReadClause(phase, args, cx).code ==
            if Expected(phase, args[0]) && |args| > 1 && BadArgument(args[0], args[1], cx) then 2 else 1
  {
    hide Accepted, IsNumber;
    WhichWordsBegin(args[0]);
    hide KindOf;
  }
}
