/**
 The arguments of a scan: the loop of `handle_scan` (wifi/iw/scan.c).  As for scheduled scans, the
 reference reads the arguments as a list of clauses.
 */
module Scan {
  import opened CNumbers
  import opened HexPattern
  import opened HexText
  import opened Options

  const ENOBUFS := 105
  const EINVAL := 22

  // ---------------------------------------------------------------- clauses

  datatype Clause =
    | Freq(freqs: seq<string>)
    | IesHex(t: string)
    | FlagWord(t: string)
    | DurationMandatory
    | Randomise(t: string)
    | Ssid(ssids: seq<string>)
    | Passive
    | MeshId(t: string)
    | Duration(t: string)
    | Unfinished(word: string)

  const FREQ := "freq"
  const IES := "ies"
  const LOWPRI := "lowpri"
  const FLUSH := "flush"
  const AP_FORCE := "ap-force"
  const COLOC := "coloc"
  const DURATION_MANDATORY := "duration-mandatory"
  const SSID := "ssid"
  const PASSIVE := "passive"
  const MESHID := "meshid"
  const DURATION := "duration"

  function Words(c: Clause): (w: seq<string>)
    ensures w != []
  {
    match c
    case Freq(freqs) => [FREQ] + freqs
    case IesHex(t) => [IES, t]
    case FlagWord(t) => [t]
    case DurationMandatory => [DURATION_MANDATORY]
    case Randomise(t) => [t]
    case Ssid(ssids) => [SSID] + ssids
    case Passive => [PASSIVE]
    case MeshId(t) => [MESHID, t]
    case Duration(t) => [DURATION, t]
    case Unfinished(word) => [word]
  }

  datatype Kind = KFreq | KIes | KFlag | KMandatory | KRandomise | KSsid | KPassive | KMeshId | KDuration | Foreign

  /** The comparisons of an argument with the words that begin clauses. */
  function KindOf(t: string): Kind {
    if t == FREQ then KFreq
    else if t == IES then KIes
    else if t == LOWPRI || t == FLUSH || t == AP_FORCE || t == COLOC then KFlag
    else if t == DURATION_MANDATORY then KMandatory
    else if "randomise" <= t || "randomize" <= t then KRandomise
    else if t == SSID then KSsid
    else if t == PASSIVE then KPassive
    else if t == MESHID then KMeshId
    else if t == DURATION then KDuration
    else Foreign
  }

  lemma Keywords()
    ensures KindOf(FREQ) == KFreq && KindOf(IES) == KIes && KindOf(DURATION_MANDATORY) == KMandatory
    ensures KindOf(SSID) == KSsid && KindOf(PASSIVE) == KPassive && KindOf(MESHID) == KMeshId
    ensures KindOf(DURATION) == KDuration
  {
  }

  lemma WordOfKind(t: string)
    ensures KindOf(t) == KFreq ==> t == FREQ
    ensures KindOf(t) == KIes ==> t == IES
    ensures KindOf(t) == KMandatory ==> t == DURATION_MANDATORY
    ensures KindOf(t) == KRandomise ==> |t| >= 9
    ensures KindOf(t) == KSsid ==> t == SSID
    ensures KindOf(t) == KPassive ==> t == PASSIVE
    ensures KindOf(t) == KMeshId ==> t == MESHID
    ensures KindOf(t) == KDuration ==> t == DURATION
  {
  }

  /** A word that takes an argument. */
  predicate TakesOne(k: Kind) {
    k == KIes || k == KMeshId || k == KDuration
  }

  /** A clause is in order, given the arguments after it. */
  ghost predicate InOrder(c: Clause, after: seq<string>) {
    match c
    case Freq(freqs) =>
      (forall i :: 0 <= i < |freqs| ==> IsDecimal(freqs[i])) && (after == [] || !IsDecimal(after[0]))
    case IesHex(t) => ElementsOf(t).Some? && HexFits(t, false)
    case FlagWord(t) => KindOf(t) == KFlag
    case Randomise(t) => KindOf(t) == KRandomise
    case Ssid(_) => after == []
    case Passive => after == []
    case Unfinished(word) => TakesOne(KindOf(word)) && after == []
    case _ => true
  }

  // ---------------------------------------------------------------- reading

  function ReadClause(args: seq<string>): (r: Option<Clause>)
    requires args != [] && KindOf(args[0]) != Foreign
    ensures r.Some? ==> |Words(r.value)| <= |args|
    ensures r.Some? && r.value.Randomise? ==> r.value.t == args[0] && |args[0]| >= 9
  {
    var word, tail := args[0], args[1..];
    match KindOf(word)
    case KFreq => Some(Freq(tail[..Decimals(tail)]))
    case KFlag => Some(FlagWord(word))
    case KMandatory => Some(DurationMandatory)
    case KRandomise => Some(Randomise(word))
    case KSsid => Some(Ssid(tail))
    case KPassive => if tail == [] then Some(Passive) else None
    case KIes =>
      if tail == [] then Some(Unfinished(word))
      else if ElementsOf(tail[0]).Some? && HexFits(tail[0], false) then Some(IesHex(tail[0])) else None
    case KMeshId => if tail == [] then Some(Unfinished(word)) else Some(MeshId(tail[0]))
    case KDuration => if tail == [] then Some(Unfinished(word)) else Some(Duration(tail[0]))
  }

  ghost predicate Randomised(cs: seq<Clause>) {
    exists c :: c in cs && c.Randomise?
  }

  /** The addresses given to the randomise options. */
  function Macs(cs: seq<Clause>): seq<string> {
    if cs == [] then []
    else
      var n := |cs| - 1;
      Macs(cs[..n]) + if cs[n].Randomise? then [if |cs[n].t| >= 9 then cs[n].t[9..] else []] else []
  }

  /**
   All arguments read; or the value `handle_scan` returns instead, and the random addresses accepted by then;
   or an element for which `parse_hex` leaves its array, after which nothing is promised.
   */
  datatype Reading = Complete(clauses: seq<Clause>) | Broken(err: int, macs: seq<string>) | OutOfBounds

  /** The word at the head takes an element that `parse_hex` has no room for. */
  predicate Overruns(args: seq<string>) {
    |args| > 1 && KindOf(args[0]) == KIes && !HexFits(args[1], false)
  }

  /**
   What is returned when a word is not understood or its argument is bad.  For a bad element the
   variable `err` is returned as it stands: a successful "randomise" has set it to zero.
   */
  ghost function ErrorAt(before: seq<Clause>, word: string): int {
    if KindOf(word) == KIes then (if Randomised(before) then 0 else -ENOBUFS) else 1
  }

  /** The parameter `mac` is the result of `parse_random_mac_addr`. */
  ghost function Read(before: seq<Clause>, args: seq<string>, mac: string -> int): Reading
    decreases |args|
  {
    if args == [] then Complete(before)
    else if KindOf(args[0]) == Foreign then Broken(1, Macs(before))
    else if Overruns(args) then OutOfBounds
    else
      match ReadClause(args)
      case None => Broken(ErrorAt(before, args[0]), Macs(before))
      case Some(c) =>
        if c.Randomise? && mac(c.t[9..]) != 0 then Broken(mac(c.t[9..]), Macs(before))
        else Read(before + [c], args[|Words(c)|..], mac)
  }

  // ---------------------------------------------------------------- the reading is the only one

  /** The arguments begin with these clauses, each in order, and `rest` follows. */
  ghost predicate Writes(args: seq<string>, clauses: seq<Clause>, rest: seq<string>)
    decreases clauses
  {
    if clauses == [] then args == rest
    else
      var w := Words(clauses[0]);
      w <= args && InOrder(clauses[0], args[|w|..]) && Writes(args[|w|..], clauses[1..], rest)
  }

  ghost predicate MacsParse(clauses: seq<Clause>, mac: string -> int) {
    forall c :: c in clauses && c.Randomise? && |c.t| >= 9 ==> mac(c.t[9..]) == 0
  }

  lemma AfterTheWord(word: string, list: seq<string>, args: seq<string>)
    requires args != []
    ensures [word] + list <= args <==> word == args[0] && list <= args[1..]
    ensures 1 + |list| <= |args| ==> args[1 + |list|..] == args[1..][|list|..]
  {
    if word == args[0] && list <= args[1..] {
      assert args == [args[0]] + args[1..];
    }
    if [word] + list <= args {
      assert ([word] + list)[0] == args[0];
      assert forall i :: 0 <= i < |list| ==> list[i] == ([word] + list)[i + 1] == args[1..][i];
    }
  }

  lemma ReadFreq(args: seq<string>, l: seq<string>)
    requires args != [] && KindOf(args[0]) != Foreign
    ensures ReadClause(args) == Some(Freq(l)) <==> Words(Freq(l)) <= args && InOrder(Freq(l), args[|Words(Freq(l))|..])
  {
    hide KindOf, FREQ, Decimals, IsDecimal;
    Keywords();
    WordOfKind(args[0]);
    var tail := args[1..];
    AfterTheWord(FREQ, l, args);
    if l <= tail {
      DecimalsIff(tail, |l|);
      assert forall i :: 0 <= i < |l| ==> l[i] == tail[i];
      assert tail[..|l|] == l;
      assert |l| < |tail| ==> tail[|l|..][0] == tail[|l|];
    }
  }

  lemma ReadSsid(args: seq<string>, l: seq<string>)
    requires args != [] && KindOf(args[0]) != Foreign
    ensures ReadClause(args) == Some(Ssid(l)) <==> Words(Ssid(l)) <= args && InOrder(Ssid(l), args[|Words(Ssid(l))|..])
  {
    hide KindOf, SSID;
    Keywords();
    WordOfKind(args[0]);
    AfterTheWord(SSID, l, args);
    assert l <= args[1..] && |l| == |args[1..]| ==> l == args[1..];
  }

  /** The clause read at the head is the one that is written there, in order. */
  lemma ReadClauseIff(args: seq<string>, c: Clause)
    requires args != [] && KindOf(args[0]) != Foreign
    ensures ReadClause(args) == Some(c) <==> Words(c) <= args && InOrder(c, args[|Words(c)|..])
  {
    match c
    case Freq(l) => ReadFreq(args, l);
    case Ssid(l) => ReadSsid(args, l);
    case _ => ReadShort(args, c);
  }

  lemma ReadShort(args: seq<string>, c: Clause)
    requires args != [] && KindOf(args[0]) != Foreign && !c.Freq? && !c.Ssid?
    ensures ReadClause(args) == Some(c) <==> Words(c) <= args && InOrder(c, args[|Words(c)|..])
  {
    hide KindOf, FREQ, IES, DURATION_MANDATORY, SSID, PASSIVE, MESHID, DURATION, ElementsOf, HexFits, Decimals;
    Keywords();
    WordOfKind(args[0]);
  }

  lemma WrittenIsOurs(c: Clause, after: seq<string>)
    requires InOrder(c, after)
    ensures KindOf(Words(c)[0]) != Foreign
  {
    hide KindOf, FREQ, IES, DURATION_MANDATORY, SSID, PASSIVE, MESHID, DURATION;
    Keywords();
  }

  lemma WrittenFits(args: seq<string>, c: Clause)
    requires Words(c) <= args && InOrder(c, args[|Words(c)|..])
    ensures !Overruns(args)
  {
    hide KindOf, FREQ, IES, DURATION_MANDATORY, SSID, PASSIVE, MESHID, DURATION, ElementsOf, HexFits;
    Keywords();
    assert args[0] == Words(c)[0];
    if c.Ssid? || c.Freq? {
      assert KindOf(args[0]) != KIes;
    }
  }

  /** Clauses that are written at the head are read, and the reading goes on after them. */
  lemma {:induction false} ReadThrough(before: seq<Clause>, args: seq<string>, mac: string -> int, cs: seq<Clause>, rest: seq<string>)
    requires Writes(args, cs, rest) && MacsParse(cs, mac)
    ensures Read(before, args, mac) == Read(before + cs, rest, mac)
    decreases |args|
  {
    hide KindOf, InOrder, Words, ReadClause, Overruns;
    if cs == [] {
      assert before + [] == before;
    } else {
      var c := cs[0];
      var after := args[|Words(c)|..];
      WrittenIsOurs(c, after);
      assert args[0] == Words(c)[0];
      ReadClauseIff(args, c);
      WrittenFits(args, c);
      assert c in cs;
      ReadThrough(before + [c], after, mac, cs[1..], rest);
      assert before + [c] + cs[1..] == before + cs;
    }
  }

  /** What is read is written: the clauses of a complete reading, and those before an error. */
  lemma {:induction false} ReadIsWritten(before: seq<Clause>, args: seq<string>, mac: string -> int)
      returns (cs: seq<Clause>, rest: seq<string>)
    ensures Writes(args, cs, rest) && MacsParse(cs, mac)
    ensures match Read(before, args, mac)
            case Complete(all) => all == before + cs && rest == []
            case OutOfBounds => Overruns(rest)
            case Broken(e, macs) =>
              && rest != [] && macs == Macs(before + cs) && !Overruns(rest)
              && (KindOf(rest[0]) == Foreign ==> e == 1)
              && (KindOf(rest[0]) != Foreign ==>
                    match ReadClause(rest)
                    case None => e == if KindOf(rest[0]) != KIes then 1 else if Randomised(before + cs) then 0 else -105
                    case Some(c) => c.Randomise? && e == mac(c.t[9..]) != 0)
    decreases |args|
  {
    hide KindOf, InOrder, Words, ReadClause, HexFits;
    cs, rest := [], args;
    assert before + [] == before;
    if args != [] && KindOf(args[0]) != Foreign && !Overruns(args) && ReadClause(args).Some? {
      var c := ReadClause(args).value;
      if !c.Randomise? || mac(c.t[9..]) == 0 {
        var more;
        more, rest := ReadIsWritten(before + [c], args[|Words(c)|..], mac);
        cs := [c] + more;
        assert cs[1..] == more;
        ReadClauseIff(args, c);
        assert before + [c] + more == before + cs;
      }
    }
  }

  /** The reading is the only one: it is complete exactly when the arguments write the clauses, in order. */
  lemma ReadIff(args: seq<string>, mac: string -> int, cs: seq<Clause>)
    ensures Read([], args, mac) == Complete(cs) <==> Writes(args, cs, []) && MacsParse(cs, mac)
  {
    hide Read, Writes, MacsParse;
    assert [] + cs == cs;
    if Writes(args, cs, []) && MacsParse(cs, mac) {
      ReadThrough([], args, mac, cs, []);
      NothingLeft(cs, mac);
    }
    if Read([], args, mac) == Complete(cs) {
      var ds, rest := ReadIsWritten([], args, mac);
      assert [] + ds == ds;
    }
  }

  lemma NothingLeft(cs: seq<Clause>, mac: string -> int)
    ensures Read(cs, [], mac) == Complete(cs)
  {
  }

  /** A bad element comes after a randomise option that was accepted. */
  ghost predicate BadElementAfterRandomise(args: seq<string>, mac: string -> int, cs: seq<Clause>, rest: seq<string>) {
    && Writes(args, cs, rest) && MacsParse(cs, mac) && Randomised(cs)
    && |rest| > 1 && KindOf(rest[0]) == KIes && ElementsOf(rest[1]).None? && HexFits(rest[1], false)
  }

  /**
   `handle_scan` returns zero with arguments unread, and the rest of its message not built, exactly when
   an element does not parse and a randomise option stands before it.
   */
  lemma WhenArgumentsGoUnread(args: seq<string>, mac: string -> int)
    ensures Read([], args, mac).Broken? && Read([], args, mac).err == 0 <==>
            exists cs, rest :: BadElementAfterRandomise(args, mac, cs, rest)
  {
    hide KindOf, ElementsOf, HexFits, Writes, MacsParse, Randomised;
    if exists cs, rest :: BadElementAfterRandomise(args, mac, cs, rest) {
      var cs, rest :| BadElementAfterRandomise(args, mac, cs, rest);
      ReadThrough([], args, mac, cs, rest);
      assert [] + cs == cs;
    }
    if Read([], args, mac).Broken? && Read([], args, mac).err == 0 {
      var cs, rest := ReadIsWritten([], args, mac);
      assert [] + cs == cs;
      assert BadElementAfterRandomise(args, mac, cs, rest);
    }
  }

  lemma UnreadAfter(word: string, t: string, mac: string -> int)
    requires KindOf(word) == KRandomise && |word| >= 9 && mac(word[9..]) == 0 && ElementsOf(t).None? && HexFits(t, false)
    ensures Read([], [word] + [IES, t], mac) == Broken(0, [word[9..]])
  {
    hide KindOf, ElementsOf, HexFits, IES, Read;
    var c := Randomise(word);
    ReadsRandomise([], word, [IES, t], mac);
    StopsAtElement([c], t, mac);
    Keywords();
    assert [] + [c] == [c] && c in [c];
    assert [c][..0] == [] && Macs([]) == [] && [] + [word[9..]] == [word[9..]];
    assert Macs([c]) == Macs([c][..0]) + [word[9..]];
  }

  /** The arguments "randomise ies zz" do that, if a random address is accepted: 0 is returned and "zz" is lost. */
  lemma UnreadElement(mac: string -> int)
    requires mac("") == 0
    ensures Read([], ["randomise", "ies", "zz"], mac) == Broken(0, [""])
  {
    hide KindOf, ElementsOf, HexFits, Read, AllParse, Tokens;
    BadElement();
    assert "randomise"[9..] == "" && IES == "ies";
    UnreadAfter("randomise", "zz", mac);
    assert ["randomise"] + ["ies", "zz"] == ["randomise", "ies", "zz"];
  }

  lemma ReadsRandomise(before: seq<Clause>, word: string, rest: seq<string>, mac: string -> int)
    requires KindOf(word) == KRandomise && |word| >= 9 && mac(word[9..]) == 0
    ensures Read(before, [word] + rest, mac) == Read(before + [Randomise(word)], rest, mac)
  {
    hide KindOf, Macs, HexFits;
    var args := [word] + rest;
    assert args[1..] == rest;
  }

  lemma StopsAtElement(before: seq<Clause>, t: string, mac: string -> int)
    requires ElementsOf(t).None? && HexFits(t, false)
    ensures Read(before, [IES, t], mac) == Broken(ErrorAt(before, IES), Macs(before))
  {
    Keywords();
    hide KindOf, ElementsOf, HexFits, IES, ErrorAt, Macs;
    assert [IES, t][1..] == [t];
  }

  lemma BadElement()
    ensures KindOf("randomise") == KRandomise && ElementsOf("zz").None? && HexFits("zz", false)
  {
    assert Tokens("zz") == ["zz"];
    assert DigitsStart("zz", 16) == 0 && "zz"[0..] == "zz" && LeadingDigits("zz", 16) == 0;
    SomeBadToken(["zz"], 0, false);
  }

  lemma FollowsWritten(args: seq<string>, mac: string -> int, cs: seq<Clause>, rest: seq<string>)
    requires Writes(args, cs, rest) && MacsParse(cs, mac) && Overruns(rest)
    ensures Read([], args, mac) == OutOfBounds
  {
    hide KindOf, Writes, MacsParse, HexFits;
    ReadThrough([], args, mac, cs, rest);
  }

  /** The parser leaves its array exactly when an element that does not fit follows clauses in order. */
  lemma WhenAnElementOverruns(args: seq<string>, mac: string -> int)
    ensures Read([], args, mac) == OutOfBounds <==>
            exists cs, rest :: Writes(args, cs, rest) && MacsParse(cs, mac) && Overruns(rest)
  {
    hide Read, Writes, MacsParse, Overruns;
    if cs, rest :| Writes(args, cs, rest) && MacsParse(cs, mac) && Overruns(rest) {
      FollowsWritten(args, mac, cs, rest);
    }
    if Read([], args, mac) == OutOfBounds {
      var cs, rest := ReadIsWritten([], args, mac);
    }
  }

  /** The arguments "ies :::::" are such. */
  lemma FiveColonsOverrun(mac: string -> int)
    ensures Read([], [IES, ":::::"], mac) == OutOfBounds && ElementsOf(":::::").Some?
  {
    FiveColons(false);
    hide KindOf, HexFits, IES, AllParse, Tokens;
    Keywords();
    assert Overruns([IES, ":::::"]);
  }

  /** Passive scanning and a list of names exclude each other: each must come last. */
  lemma PassiveHasNoSsids(args: seq<string>, mac: string -> int, j: nat, k: nat)
    requires Read([], args, mac).Complete? && j < |Read([], args, mac).clauses| && k < |Read([], args, mac).clauses|
    ensures var cs := Read([], args, mac).clauses; !(cs[j].Passive? && cs[k].Ssid?)
  {
    var cs := Read([], args, mac).clauses;
    ReadIff(args, mac, cs);
    if cs[j].Passive? || cs[j].Ssid? {
      LastIsLast(args, cs, [], j);
    }
    if cs[k].Passive? || cs[k].Ssid? {
      LastIsLast(args, cs, [], k);
    }
  }

  lemma NoArgumentsNoClauses(cs: seq<Clause>, rest: seq<string>)
    requires Writes([], cs, rest)
    ensures cs == []
  {
  }

  lemma {:induction false} LastIsLast(args: seq<string>, cs: seq<Clause>, rest: seq<string>, k: nat)
    requires Writes(args, cs, rest) && k < |cs| && (cs[k].Passive? || cs[k].Ssid?)
    ensures k == |cs| - 1
    decreases k
  {
    var after := args[|Words(cs[0])|..];
    if k > 0 {
      LastIsLast(after, cs[1..], rest, k - 1);
    } else {
      assert after == [];
      NoArgumentsNoClauses(cs[1..], rest);
    }
  }

  // ---------------------------------------------------------------- words, one by one

  /** The words that begin clauses, and those that make up clauses by themselves. */
  lemma WhichWordsBegin(t: string)
    ensures (KindOf(t) == KFreq <==> t == "freq") && (KindOf(t) == KIes <==> t == "ies")
    ensures KindOf(t) == KFlag <==> t in {"lowpri", "flush", "ap-force", "coloc"}
    ensures KindOf(t) == KMandatory <==> t == "duration-mandatory"
    ensures KindOf(t) == KRandomise <==> "randomise" <= t || "randomize" <= t
    ensures (KindOf(t) == KSsid <==> t == "ssid") && (KindOf(t) == KPassive <==> t == "passive")
    ensures (KindOf(t) == KMeshId <==> t == "meshid") && (KindOf(t) == KDuration <==> t == "duration")
  {
    assert "randomise" <= t || "randomize" <= t ==> t[0] == 'r';
  }

  /** How the clauses are written. */
  lemma HowClausesAreWritten(t: string, l: seq<string>)
    ensures Words(Freq(l)) == ["freq"] + l && Words(Ssid(l)) == ["ssid"] + l && Words(Passive) == ["passive"]
    ensures Words(IesHex(t)) == ["ies", t] && Words(MeshId(t)) == ["meshid", t] && Words(Duration(t)) == ["duration", t]
    ensures Words(DurationMandatory) == ["duration-mandatory"] && Words(FlagWord(t)) == [t] == Words(Randomise(t))
  {
  }
}
