/**
 The message of `handle_tid_config` (wifi/iw/interface.c): nested attributes as events, the message for a
 configuration, and what it holds in terms of the clauses.
 */
module TidMessage {
  import opened Bytes
  import opened CNumbers
  import opened Options
  import opened TidConfig

  // ---------------------------------------------------------------- messages with nested attributes

  /** Attributes put; `RatesAttr` stands for the masks that `SetBitrates` makes of its arguments. */
  datatype Attr =
    | MacAttr(address: seq<byte>)
    | TidsAttr(mask: nat)
    | OverrideAttr
    | ToggleAttr(word: string, on: bool)
    | RetryAttr(word: string, value: nat)
    | RateTypeAttr(kind: string)
    | RatesAttr(args: seq<string>)

  /** What is done to the message: a nest is opened, with its attribute number, and closed. */
  datatype Event = OpenConfig | OpenEntry(number: nat) | Close | Put(a: Attr)

  /** The depth of nesting after some events, unless more is closed than was opened. */
  function Depth(events: seq<Event>, d: nat): Option<nat> {
    if events == [] then Some(d)
    else if events[0].Put? then Depth(events[1..], d)
    else if events[0].Close? then (if d == 0 then None else Depth(events[1..], d - 1))
    else Depth(events[1..], d + 1)
  }

  lemma {:induction false} DepthAppend(a: seq<Event>, b: seq<Event>, d: nat)
    ensures Depth(a + b, d) == match Depth(a, d) case None => None case Some(e) => Depth(b, e)
    decreases a
  {
    if a == [] {
      assert a + b == b;
    } else {
      assert (a + b)[1..] == a[1..] + b;
      if a[0].Put? {
        DepthAppend(a[1..], b, d);
      } else if a[0].Close? {
        if d > 0 {
          DepthAppend(a[1..], b, d - 1);
        }
      } else {
        DepthAppend(a[1..], b, d + 1);
      }
    }
  }

  // ---------------------------------------------------------------- what the clauses say

  /** The attributes of the entries, each with its TID mask first. */
  datatype Config = Config(peer: Option<seq<byte>>, entries: seq<seq<Attr>>)

  const EMPTY := Config(None, [])

  function ItemAttrs(i: Item): seq<Attr> {
    match i
    case Override => [OverrideAttr]
    case Toggle(word, value) => [ToggleAttr(word, value == "on")]
    case Retry(word, number) => [RetryAttr(word, Strtol(number).0 % 256)]
    case Auto => [RateTypeAttr(AUTO)]
    case Rates(kind, args) => [RateTypeAttr(kind), RatesAttr(args)]
  }

  /** The last entry with more attributes. */
  function Extended(entries: seq<seq<Attr>>, attrs: seq<Attr>): seq<seq<Attr>>
    requires entries != []
  {
    var n := |entries| - 1;
    entries[..n] + [entries[n] + attrs]
  }

  /** A mask begins an entry; items go to the last one. */
  function AddClause(c: Config, cl: Clause, cx: Context): Config {
    match cl
    case Peer(address) => c.(peer := cx.mac(address))
    case Tids(mask) => c.(entries := c.entries + [[TidsAttr(Strtol(mask).0 % 0x1_0000)]])
    case Conf(item) => if c.entries == [] then c else c.(entries := Extended(c.entries, ItemAttrs(item)))
  }

  function ConfigOf(cs: seq<Clause>, cx: Context): Config {
    if cs == [] then EMPTY else AddClause(ConfigOf(cs[..|cs| - 1], cx), cs[|cs| - 1], cx)
  }

  // ---------------------------------------------------------------- the message for a configuration

  function Puts(attrs: seq<Attr>): (e: seq<Event>)
    ensures |e| == |attrs| && forall i :: 0 <= i < |e| ==> e[i] == Put(attrs[i])
  {
    seq(|attrs|, i requires 0 <= i < |attrs| => Put(attrs[i]))
  }

  function EntryEvents(number: nat, attrs: seq<Attr>): seq<Event> {
    [OpenEntry(number)] + Puts(attrs) + [Close]
  }

  /** Entries one after the other, numbered from zero, each closed before the next. */
  function EntriesEvents(entries: seq<seq<Attr>>): seq<Event> {
    if entries == [] then []
    else
      var n := |entries| - 1;
      EntriesEvents(entries[..n]) + EntryEvents(n, entries[n])
  }

  function PeerEvents(c: Config): seq<Event> {
    if c.peer.Some? then [Put(MacAttr(c.peer.value))] else []
  }

  /** The whole message. */
  function Message(c: Config): seq<Event> {
    if c.entries == [] then PeerEvents(c) else PeerEvents(c) + [OpenConfig] + EntriesEvents(c.entries) + [Close]
  }

  /** The message while the last entry is open. */
  function OpenMessage(c: Config): seq<Event> {
    if c.entries == [] then PeerEvents(c)
    else
      var n := |c.entries| - 1;
      PeerEvents(c) + [OpenConfig] + EntriesEvents(c.entries[..n]) + [OpenEntry(n)] + Puts(c.entries[n])
  }

  lemma CloseMessage(c: Config)
    ensures Message(c) == if c.entries == [] then OpenMessage(c) else OpenMessage(c) + [Close] + [Close]
  {
    if c.entries != [] {
      var n := |c.entries| - 1;
      var head, inner := PeerEvents(c) + [OpenConfig], EntriesEvents(c.entries[..n]);
      assert head + (inner + ([OpenEntry(n)] + Puts(c.entries[n]) + [Close])) + [Close]
          == head + inner + [OpenEntry(n)] + Puts(c.entries[n]) + [Close] + [Close];
    }
  }

  /** A further mask closes the open entry and opens the next. */
  lemma NextEntry(c: Config, attrs: seq<Attr>)
    ensures var n := |c.entries|;
            OpenMessage(c.(entries := c.entries + [attrs])) ==
            OpenMessage(c) + (if n == 0 then [OpenConfig] else [Close]) + [OpenEntry(n)] + Puts(attrs)
  {
    var n := |c.entries|;
    var d := c.(entries := c.entries + [attrs]);
    assert d.entries[..n] == c.entries;
    if n > 0 {
      var head, inner := PeerEvents(c) + [OpenConfig], EntriesEvents(c.entries[..n - 1]);
      var last := [OpenEntry(n - 1)] + Puts(c.entries[n - 1]) + [Close];
      assert EntriesEvents(c.entries) == inner + last;
      assert head + (inner + last) == head + inner + [OpenEntry(n - 1)] + Puts(c.entries[n - 1]) + [Close];
    } else {
      assert PeerEvents(c) + [OpenConfig] + [] == PeerEvents(c) + [OpenConfig];
    }
  }

  lemma MoreAttrs(c: Config, attrs: seq<Attr>)
    requires c.entries != []
    ensures OpenMessage(c.(entries := Extended(c.entries, attrs))) == OpenMessage(c) + Puts(attrs)
  {
    var n := |c.entries| - 1;
    var d := c.(entries := Extended(c.entries, attrs));
    assert d.entries[..n] == c.entries[..n] && d.entries[n] == c.entries[n] + attrs;
    PutsOfBoth(c.entries[n], attrs);
    hide EntriesEvents, Puts, Extended, PeerEvents;
    PeerOf(c, d);
    var head := PeerEvents(c) + [OpenConfig] + EntriesEvents(c.entries[..n]) + [OpenEntry(n)];
    Associative(head, Puts(c.entries[n]), Puts(attrs));
  }

  lemma PeerOf(c: Config, d: Config)
    requires c.peer == d.peer
    ensures PeerEvents(c) == PeerEvents(d)
  {
  }

  lemma Associative<T>(a: seq<T>, b: seq<T>, c: seq<T>)
    ensures a + (b + c) == (a + b) + c
  {
  }

  lemma PutsOfBoth(a: seq<Attr>, b: seq<Attr>)
    ensures Puts(a + b) == Puts(a) + Puts(b)
  {
  }

  /** Nesting in a message is closed at its end, and nothing is closed that is not open. */
  lemma MessageIsClosed(c: Config)
    ensures Depth(Message(c), 0) == Some(0)
  {
    hide Depth, EntriesEvents;
    var peer := PeerEvents(c);
    PutsKeepDepth(if c.peer.Some? then [MacAttr(c.peer.value)] else [], 0);
    assert peer == Puts(if c.peer.Some? then [MacAttr(c.peer.value)] else []);
    if c.entries != [] {
      EntriesAreClosed(c.entries);
      OneEvent(0);
      OneEvent(1);
      DepthAppend(peer, [OpenConfig], 0);
      DepthAppend(peer + [OpenConfig], EntriesEvents(c.entries), 0);
      DepthAppend(peer + [OpenConfig] + EntriesEvents(c.entries), [Close], 0);
    }
  }

  lemma OneEvent(d: nat)
    ensures Depth([OpenConfig], d) == Some(d + 1) && forall n: nat {:trigger OpenEntry(n)} :: Depth([OpenEntry(n)], d) == Some(d + 1)
    ensures d > 0 ==> Depth([Close], d) == Some(d - 1)
  {
  }

  lemma {:induction false} PutsKeepDepth(attrs: seq<Attr>, d: nat)
    ensures Depth(Puts(attrs), d) == Some(d)
  {
    if attrs != [] {
      assert Puts(attrs)[1..] == Puts(attrs[1..]);
      PutsKeepDepth(attrs[1..], d);
    }
  }

  lemma {:induction false} EntriesAreClosed(entries: seq<seq<Attr>>)
    ensures Depth(EntriesEvents(entries), 1) == Some(1)
  {
    if entries != [] {
      hide Depth;
      var n := |entries| - 1;
      EntriesAreClosed(entries[..n]);
      OneEvent(1);
      OneEvent(2);
      PutsKeepDepth(entries[n], 2);
      DepthAppend([OpenEntry(n)], Puts(entries[n]), 1);
      DepthAppend([OpenEntry(n)] + Puts(entries[n]), [Close], 1);
      DepthAppend(EntriesEvents(entries[..n]), EntryEvents(n, entries[n]), 1);
    }
  }

  // ---------------------------------------------------------------- the message in terms of the clauses

  /** The attributes put, in order. */
  function PutsIn(events: seq<Event>): seq<Attr> {
    if events == [] then []
    else
      var n := |events| - 1;
      PutsIn(events[..n]) + if events[n].Put? then [events[n].a] else []
  }

  /** The numbers of the entries opened, in order. */
  function NumbersIn(events: seq<Event>): seq<nat> {
    if events == [] then []
    else
      var n := |events| - 1;
      NumbersIn(events[..n]) + if events[n].OpenEntry? then [events[n].number] else []
  }

  /** What a clause sends: masks have sixteen bits and retry counts eight; the words are those of the clause. */
  function Sent(c: Clause, cx: Context): seq<Attr> {
    match c
    case Peer(address) => if cx.mac(address).Some? then [MacAttr(cx.mac(address).value)] else []
    case Tids(mask) => [TidsAttr(Strtol(mask).0 % 65536)]
    case Conf(item) =>
      if item.Override? then [OverrideAttr]
      else if item.Toggle? then [ToggleAttr(item.word, item.value == "on")]
      else if item.Retry? then [RetryAttr(item.word, Strtol(item.number).0 % 256)]
      else if item.Auto? then [RateTypeAttr("auto")]
      else [RateTypeAttr(item.kind), RatesAttr(item.args)]
  }

  function AllSent(cs: seq<Clause>, cx: Context): seq<Attr> {
    if cs == [] then []
    else
      var n := |cs| - 1;
      AllSent(cs[..n], cx) + Sent(cs[n], cx)
  }

  function Masks(cs: seq<Clause>): nat {
    if cs == [] then 0
    else
      var n := |cs| - 1;
      Masks(cs[..n]) + if cs[n].Tids? then 1 else 0
  }

  /** An address comes first only, and items after a mask only. */
  ghost predicate WellPlaced(cs: seq<Clause>) {
    forall i :: 0 <= i < |cs| ==> (cs[i].Peer? ==> i == 0) && (cs[i].Conf? ==> exists k :: 0 <= k < i && cs[k].Tids?)
  }

  /**
   The message holds what the clauses send, in order; its entries are numbered from zero, one for each mask,
   and each entry begins with its mask and has no other.
   */
  ghost predicate SendsInOrder(msg: seq<Event>, cs: seq<Clause>, cx: Context) {
    && PutsIn(msg) == AllSent(cs, cx)
    && |NumbersIn(msg)| == Masks(cs) && (forall i :: 0 <= i < Masks(cs) ==> NumbersIn(msg)[i] == i)
    && (forall i :: 0 <= i < |msg| && msg[i].OpenEntry? ==> i + 1 < |msg| && IsMask(msg[i + 1]))
    && (forall i :: 0 <= i < |msg| && IsMask(msg[i]) ==> i > 0 && msg[i - 1].OpenEntry?)
  }

  predicate IsMask(e: Event) {
    e.Put? && e.a.TidsAttr?
  }

  lemma {:induction false} PutsInAppend(a: seq<Event>, b: seq<Event>)
    ensures PutsIn(a + b) == PutsIn(a) + PutsIn(b) && NumbersIn(a + b) == NumbersIn(a) + NumbersIn(b)
  {
    if b == [] {
      assert a + b == a && PutsIn(a) + [] == PutsIn(a) && NumbersIn(a) + [] == NumbersIn(a);
    } else {
      var n := |b| - 1;
      PutsInAppend(a, b[..n]);
      assert a + b == (a + b[..n]) + [b[n]] && b == b[..n] + [b[n]];
      PutsInSnoc(a + b[..n], b[n]);
      PutsInSnoc(b[..n], b[n]);
      hide PutsIn, NumbersIn;
      Associative(PutsIn(a), PutsIn(b[..n]), if b[n].Put? then [b[n].a] else []);
      Associative(NumbersIn(a), NumbersIn(b[..n]), if b[n].OpenEntry? then [b[n].number] else []);
    }
  }

  lemma PutsInSnoc(b: seq<Event>, e: Event)
    ensures PutsIn(b + [e]) == PutsIn(b) + if e.Put? then [e.a] else []
    ensures NumbersIn(b + [e]) == NumbersIn(b) + if e.OpenEntry? then [e.number] else []
  {
    assert (b + [e])[..|b|] == b;
  }

  lemma {:induction false} PutsInPuts(attrs: seq<Attr>)
    ensures PutsIn(Puts(attrs)) == attrs && NumbersIn(Puts(attrs)) == []
  {
    if attrs != [] {
      var n := |attrs| - 1;
      assert Puts(attrs)[..n] == Puts(attrs[..n]);
      PutsInPuts(attrs[..n]);
    }
  }

  lemma PutsInOne(e: Event)
    ensures PutsIn([e]) == (if e.Put? then [e.a] else []) && NumbersIn([e]) == if e.OpenEntry? then [e.number] else []
  {
    assert [e][..0] == [];
  }

  function Flat(entries: seq<seq<Attr>>): seq<Attr> {
    if entries == [] then []
    else
      var n := |entries| - 1;
      Flat(entries[..n]) + entries[n]
  }

  lemma {:induction false} PutsInEntries(entries: seq<seq<Attr>>)
    ensures PutsIn(EntriesEvents(entries)) == Flat(entries)
    ensures |NumbersIn(EntriesEvents(entries))| == |entries|
    ensures forall i :: 0 <= i < |entries| ==> NumbersIn(EntriesEvents(entries))[i] == i
  {
    if entries != [] {
      var n := |entries| - 1;
      PutsInEntries(entries[..n]);
      PutsInEntry(n, entries[n]);
      hide EntryEvents, PutsIn, NumbersIn;
      PutsInAppend(EntriesEvents(entries[..n]), EntryEvents(n, entries[n]));
    }
  }

  lemma PutsInEntry(n: nat, attrs: seq<Attr>)
    ensures PutsIn(EntryEvents(n, attrs)) == attrs && NumbersIn(EntryEvents(n, attrs)) == [n]
  {
    PutsInPuts(attrs);
    PutsInOne(OpenEntry(n));
    PutsInOne(Close);
    hide PutsIn, NumbersIn, Puts;
    PutsInAppend([OpenEntry(n)], Puts(attrs));
    PutsInAppend([OpenEntry(n)] + Puts(attrs), [Close]);
  }

  /** What is put for a configuration, and how its entries are numbered. */
  lemma PutsInMessage(c: Config)
    ensures PutsIn(Message(c)) == (if c.peer.Some? then [MacAttr(c.peer.value)] else []) + Flat(c.entries)
    ensures |NumbersIn(Message(c))| == |c.entries| && forall i :: 0 <= i < |c.entries| ==> NumbersIn(Message(c))[i] == i
  {
    PutsInPeer(c);
    PutsInEntries(c.entries);
    PutsInOne(OpenConfig);
    PutsInOne(Close);
    hide PutsIn, NumbersIn, EntriesEvents, PeerEvents;
    if c.entries != [] {
      PutsInAppend(PeerEvents(c), [OpenConfig]);
      PutsInAppend(PeerEvents(c) + [OpenConfig], EntriesEvents(c.entries));
      PutsInAppend(PeerEvents(c) + [OpenConfig] + EntriesEvents(c.entries), [Close]);
    }
  }

  lemma PutsInPeer(c: Config)
    ensures PutsIn(PeerEvents(c)) == (if c.peer.Some? then [MacAttr(c.peer.value)] else []) && NumbersIn(PeerEvents(c)) == []
  {
    if c.peer.Some? {
      PutsInOne(Put(MacAttr(c.peer.value)));
    }
  }

  /** An entry begins with its mask, and has no other. */
  predicate EntriesBegin(entries: seq<seq<Attr>>) {
    forall i :: 0 <= i < |entries| ==>
      entries[i] != [] && entries[i][0].TidsAttr? && forall k :: 0 < k < |entries[i]| ==> !entries[i][k].TidsAttr?
  }

  function PeerSent(c: Config): seq<Attr> {
    if c.peer.Some? then [MacAttr(c.peer.value)] else []
  }

  lemma SentIs(c: Clause, cx: Context)
    ensures c.Conf? ==> ItemAttrs(c.item) == Sent(c, cx) && forall k :: 0 <= k < |Sent(c, cx)| ==> !Sent(c, cx)[k].TidsAttr?
    ensures c.Tids? ==> Sent(c, cx) == [TidsAttr(Strtol(c.mask).0 % 0x1_0000)]
  {
    hide Strtol;
  }

  lemma FlatExtended(entries: seq<seq<Attr>>, attrs: seq<Attr>)
    requires entries != []
    ensures Flat(Extended(entries, attrs)) == Flat(entries) + attrs
  {
    var n := |entries| - 1;
    var d := Extended(entries, attrs);
    assert d[..n] == entries[..n] && d[n] == entries[n] + attrs;
    assert Flat(entries[..n]) + (entries[n] + attrs) == (Flat(entries[..n]) + entries[n]) + attrs;
  }

  lemma FlatOneMore(entries: seq<seq<Attr>>, e: seq<Attr>)
    ensures Flat(entries + [e]) == Flat(entries) + e
  {
    assert (entries + [e])[..|entries|] == entries;
  }

  lemma MaskSends(g: Config, c: Clause, cx: Context)
    requires c.Tids? && EntriesBegin(g.entries)
    ensures var h := AddClause(g, c, cx);
            && PeerSent(h) + Flat(h.entries) == (PeerSent(g) + Flat(g.entries)) + Sent(c, cx)
            && |h.entries| == |g.entries| + 1 && EntriesBegin(h.entries)
  {
    hide Strtol;
    SentIs(c, cx);
    FlatOneMore(g.entries, Sent(c, cx));
    hide Flat;
    assert PeerSent(g) + (Flat(g.entries) + Sent(c, cx)) == (PeerSent(g) + Flat(g.entries)) + Sent(c, cx);
  }

  lemma ItemSends(g: Config, c: Clause, cx: Context)
    requires c.Conf? && EntriesBegin(g.entries) && g.entries != []
    ensures var h := AddClause(g, c, cx);
            && PeerSent(h) + Flat(h.entries) == (PeerSent(g) + Flat(g.entries)) + Sent(c, cx)
            && |h.entries| == |g.entries| && EntriesBegin(h.entries)
  {
    SentIs(c, cx);
    hide Strtol, Sent, ItemAttrs;
    FlatExtended(g.entries, ItemAttrs(c.item));
    hide Flat;
    assert PeerSent(g) + (Flat(g.entries) + Sent(c, cx)) == (PeerSent(g) + Flat(g.entries)) + Sent(c, cx);
  }

  lemma {:induction false} ConfigSends(cs: seq<Clause>, cx: Context)
    requires WellPlaced(cs)
    ensures var c := ConfigOf(cs, cx);
            PeerSent(c) + Flat(c.entries) == AllSent(cs, cx) && |c.entries| == Masks(cs) && EntriesBegin(c.entries)
  {
    hide Strtol, Sent, ItemAttrs, WellPlaced;
    if cs != [] {
      var n := |cs| - 1;
      var before, c := cs[..n], cs[n];
      PlacedBefore(cs);
      ConfigSends(before, cx);
      var g := ConfigOf(before, cx);
      assert ConfigOf(cs, cx) == AddClause(g, c, cx) && AllSent(cs, cx) == AllSent(before, cx) + Sent(c, cx);
      match c
      case Peer(address) =>
        assert before == [];
        PeerIsSent(address, cx);
        assert [] + Sent(c, cx) == Sent(c, cx);
      case Tids(mask) =>
        hide AddClause, Flat, PeerSent, EntriesBegin;
        MaskSends(g, c, cx);
      case Conf(item) =>
        SomeMask(before);
        hide AddClause, Flat, PeerSent, EntriesBegin;
        ItemSends(g, c, cx);
    }
  }

  lemma PlacedBefore(cs: seq<Clause>)
    requires WellPlaced(cs) && cs != []
    ensures var n := |cs| - 1;
            && WellPlaced(cs[..n]) && (cs[n].Peer? ==> n == 0)
            && (cs[n].Conf? ==> exists k :: 0 <= k < n && cs[..n][k].Tids?)
  {
    var n := |cs| - 1;
    forall i | 0 <= i < n
      ensures cs[..n][i].Peer? ==> i == 0
      ensures cs[..n][i].Conf? ==> exists k :: 0 <= k < i && cs[..n][k].Tids?
    {
      if cs[i].Conf? {
        var k :| 0 <= k < i && cs[k].Tids?;
        assert cs[..n][k].Tids?;
      }
    }
    if cs[n].Conf? {
      var k :| 0 <= k < n && cs[k].Tids?;
      assert cs[..n][k].Tids?;
    }
  }

  lemma PeerIsSent(address: string, cx: Context)
    ensures var c := AddClause(EMPTY, Peer(address), cx);
            PeerSent(c) + Flat(c.entries) == Sent(Peer(address), cx) && c.entries == []
  {
  }

  lemma {:induction false} SomeMask(cs: seq<Clause>)
    requires exists k :: 0 <= k < |cs| && cs[k].Tids?
    ensures Masks(cs) > 0
  {
    var k :| 0 <= k < |cs| && cs[k].Tids?;
    var n := |cs| - 1;
    if k < n {
      assert cs[..n][k].Tids?;
      SomeMask(cs[..n]);
    }
  }

  // ---------------------------------------------------------------- where masks stand

  /** Masks follow the opening of an entry, and only masks do. */
  predicate Headed(events: seq<Event>) {
    && (forall i :: 0 <= i < |events| && events[i].OpenEntry? ==> i + 1 < |events| && IsMask(events[i + 1]))
    && (forall i :: 0 <= i < |events| && IsMask(events[i]) ==> i > 0 && events[i - 1].OpenEntry?)
  }

  lemma HeadedAppend(a: seq<Event>, b: seq<Event>)
    requires Headed(a) && Headed(b)
    ensures Headed(a + b)
  {
    var c := a + b;
    forall i | 0 <= i < |c| && c[i].OpenEntry?
      ensures i + 1 < |c| && IsMask(c[i + 1])
    {
      if i < |a| {
        assert a[i].OpenEntry?;
      } else {
        assert b[i - |a|].OpenEntry?;
      }
    }
    forall i | 0 <= i < |c| && IsMask(c[i])
      ensures i > 0 && c[i - 1].OpenEntry?
    {
      if i < |a| {
        assert IsMask(a[i]);
      } else {
        assert IsMask(b[i - |a|]);
      }
    }
  }

  lemma {:induction false} HeadedEntries(entries: seq<seq<Attr>>)
    requires EntriesBegin(entries)
    ensures Headed(EntriesEvents(entries))
  {
    if entries != [] {
      var n := |entries| - 1;
      HeadedEntries(entries[..n]);
      HeadedAppend(EntriesEvents(entries[..n]), EntryEvents(n, entries[n]));
    }
  }

  lemma HeadedMessage(c: Config)
    requires EntriesBegin(c.entries)
    ensures Headed(Message(c))
  {
    HeadedEntries(c.entries);
    assert Headed([OpenConfig]) && Headed([Close]) && Headed(PeerEvents(c));
    hide Headed, EntriesEvents, PeerEvents;
    if c.entries != [] {
      HeadedAppend(PeerEvents(c), [OpenConfig]);
      HeadedAppend(PeerEvents(c) + [OpenConfig], EntriesEvents(c.entries));
      HeadedAppend(PeerEvents(c) + [OpenConfig] + EntriesEvents(c.entries), [Close]);
    }
  }

  lemma MessageSendsInOrder(cs: seq<Clause>, cx: Context)
    requires WellPlaced(cs)
    ensures SendsInOrder(Message(ConfigOf(cs, cx)), cs, cx)
  {
    hide Message, ConfigOf, PutsIn, NumbersIn, AllSent, Masks, Flat;
    ConfigSends(cs, cx);
    PutsInMessage(ConfigOf(cs, cx));
    HeadedMessage(ConfigOf(cs, cx));
  }

  // ---------------------------------------------------------------- clauses that are read are well placed

  lemma {:induction false} WrittenIsPlaced(before: seq<Clause>, args: seq<string>, cs: seq<Clause>, cx: Context)
    requires Writes(before, args, cs, cx) && WellPlaced(before)
    requires PhaseAfter(before) == PsConf ==> exists k :: 0 <= k < |before| && before[k].Tids?
    ensures WellPlaced(before + cs)
    decreases cs
  {
    hide ItemOk, Words, WellPlaced;
    if cs == [] {
      assert before + cs == before;
    } else {
      var c, now := cs[0], before + [cs[0]];
      OnePlaced(before, c);
      hide PhaseAfter;
      WrittenIsPlaced(now, args[|Words(c)|..], cs[1..], cx);
      assert now + cs[1..] == before + cs;
    }
  }

  lemma OnePlaced(before: seq<Clause>, c: Clause)
    requires WellPlaced(before) && (c.Peer? ==> PhaseAfter(before) == PsAddr) && (c.Conf? ==> PhaseAfter(before) == PsConf)
    requires PhaseAfter(before) == PsConf ==> exists k :: 0 <= k < |before| && before[k].Tids?
    ensures WellPlaced(before + [c])
    ensures PhaseAfter(before + [c]) == PsConf ==> exists k :: 0 <= k < |before + [c]| && (before + [c])[k].Tids?
  {
    var now, n := before + [c], |before|;
    forall i | 0 <= i < |now|
      ensures now[i].Peer? ==> i == 0
      ensures now[i].Conf? ==> exists k :: 0 <= k < i && now[k].Tids?
    {
      if now[i].Conf? {
        var k :| 0 <= k < i && before[k].Tids?;
        assert now[k].Tids?;
      }
    }
    if c.Conf? {
      var k :| 0 <= k < n && before[k].Tids?;
      assert now[k].Tids?;
    } else if c.Tids? {
      assert now[n].Tids?;
    }
  }

  /** For arguments that are read, the message holds what the clauses send, in order. */
  lemma ReadMessage(args: seq<string>, cx: Context)
    requires Read([], args, cx).Good?
    ensures SendsInOrder(Message(ConfigOf(Read([], args, cx).value, cx)), Read([], args, cx).value, cx)
  {
    hide Read, Message, ConfigOf, SendsInOrder, Writes;
    var cs := Read([], args, cx).value;
    assert [] + cs == cs;
    ReadIff([], args, cs, cx);
    assert WellPlaced([]);
    WrittenIsPlaced([], args, cs, cx);
    MessageSendsInOrder(cs, cx);
  }
}
