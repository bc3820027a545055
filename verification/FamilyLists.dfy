/**
 Cloning a family (wifi/libnl-tiny/object.c, genl_family.c).  A family embeds the heads of its lists of
 operations and groups.  `nl_object_clone` copies the embedded heads byte for byte over those of the new
 object, and `family_clone` then appends copies of the items.  Memory is a map from node to pointer here,
 for the loop may not end.
 */
module FamilyLists {
  import opened ObjectLists

  /** List nodes: the heads embedded in the source and in the copy, the items, and the items added. */
  datatype Node = SrcHead | DstHead | Src(i: nat) | New(i: nat)

  datatype Mem<T> = Mem(next: map<Node, Node>, prev: map<Node, Node>, val: map<Node, T>)

  function Next<T>(m: Mem<T>, a: Node): Node {
    if a in m.next then m.next[a] else a
  }

  function Prev<T>(m: Mem<T>, a: Node): Node {
    if a in m.prev then m.prev[a] else a
  }

  // ---------------------------------------------------------------- the loop of `family_clone`

  /** The node of the source list at a place; the head follows the last item. */
  function SrcAt<T>(l: seq<T>, i: nat): Node {
    if i < |l| then Src(i) else SrcHead
  }

  /** The source list, linked in both directions. */
  ghost predicate IsSource<T>(m: Mem<T>, l: seq<T>) {
    && Next(m, SrcHead) == SrcAt(l, 0)
    && Prev(m, SrcHead) == (if l == [] then SrcHead else Src(|l| - 1))
    && (forall i {:trigger Next(m, Src(i))} :: 0 <= i < |l| ==> Next(m, Src(i)) == SrcAt(l, i + 1))
    && (forall i :: 0 <= i < |l| ==> Src(i) in m.val && m.val[Src(i)] == l[i])
  }

  /** The head of the copy as the constructor left it. */
  function InitHead<T>(m: Mem<T>): Mem<T> {
    m.(next := m.next[DstHead := DstHead], prev := m.prev[DstHead := DstHead])
  }

  /** The `memcpy` of `nl_object_clone`: the head of the copy gets the pointers of the source's head. */
  function CopyHead<T>(m: Mem<T>): Mem<T> {
    m.(next := m.next[DstHead := Next(m, SrcHead)], prev := m.prev[DstHead := Prev(m, SrcHead)])
  }

  /** `nl_list_add_tail` of a node to the list of the copy. */
  function AddTail<T>(m: Mem<T>, n: Node): Mem<T> {
    var p := Prev(m, DstHead);
    m.(next := m.next[p := n][n := DstHead], prev := m.prev[n := p][DstHead := n])
  }

  lemma PointersAfterAdd<T>(m: Mem<T>, n: Node)
    requires n != DstHead && Prev(m, DstHead) != n
    ensures forall a {:trigger Next(AddTail(m, n), a)} ::
              Next(AddTail(m, n), a) == if a == n then DstHead else if a == Prev(m, DstHead) then n else Next(m, a)
    ensures forall a {:trigger Prev(AddTail(m, n), a)} ::
              Prev(AddTail(m, n), a) == if a == DstHead then n else if a == n then Prev(m, DstHead) else Prev(m, a)
    ensures AddTail(m, n).val == m.val
  {
  }

  /** The loop: where the walk over the source stands, and how many items have been added. */
  datatype Loop<T> = Loop(m: Mem<T>, pos: Node, k: nat)

  /** One turn: a copy of the item at `pos` is added, then the walk follows the pointer. */
  function Turn<T>(s: Loop<T>): Loop<T> {
    if s.pos == SrcHead then s
    else
      var m := AddTail(s.m, New(s.k));
      var n := if s.pos in s.m.val then m.(val := m.val[New(s.k) := s.m.val[s.pos]]) else m;
      Loop(n, Next(n, s.pos), s.k + 1)
  }

  function Turns<T>(s: Loop<T>, j: nat): Loop<T> {
    if j == 0 then s else Turn(Turns(s, j - 1))
  }

  /** The loop when it begins; `copied` says whether the head has been copied over. */
  function Start<T>(m: Mem<T>, copied: bool): Loop<T> {
    var n := if copied then CopyHead(InitHead(m)) else InitHead(m);
    Loop(n, Next(n, SrcHead), 0)
  }

  /** Only the head of the copy differs from the source's memory when the loop begins. */
  lemma AtTheStart<T>(m: Mem<T>, copied: bool)
    ensures var n := Start(m, copied).m;
            && (forall a {:trigger Next(n, a)} ::
                  Next(n, a) == if a != DstHead then Next(m, a) else if copied then Next(m, SrcHead) else DstHead)
            && (forall a {:trigger Prev(n, a)} ::
                  Prev(n, a) == if a != DstHead then Prev(m, a) else if copied then Prev(m, SrcHead) else DstHead)
            && n.val == m.val && Start(m, copied).pos == Next(m, SrcHead)
  {
  }

  ghost predicate Ends<T>(s: Loop<T>, j: nat) {
    Turns(s, j).pos == SrcHead
  }

  // ---------------------------------------------------------------- what a proper copy is

  function NewAt<T>(l: seq<T>, i: nat): Node {
    if i < |l| then New(i) else DstHead
  }

  /** The copy has a list of its own with the same items, and the source has kept its own. */
  ghost predicate Proper<T>(m: Mem<T>, l: seq<T>) {
    && IsSource(m, l)
    && Next(m, DstHead) == NewAt(l, 0)
    && (forall i {:trigger Next(m, New(i))} :: 0 <= i < |l| ==> Next(m, New(i)) == NewAt(l, i + 1))
    && (forall i :: 0 <= i < |l| ==> New(i) in m.val && m.val[New(i)] == l[i])
  }

  /** The loop ends, and has made a proper copy. */
  ghost predicate CopiesWell<T>(m: Mem<T>, l: seq<T>, copied: bool) {
    exists j: nat :: Ends(Start(m, copied), j) && Proper(Turns(Start(m, copied), j).m, l)
  }

  // ---------------------------------------------------------------- with the head copied over

  /** Where the walk stands after `j` turns: in the source, then in the items it has added itself. */
  function Reached<T>(l: seq<T>, j: nat): Node {
    if j < |l| then Src(j) else New(j - |l|)
  }

  /** The list after `j` turns: the added items hang behind the source's last one. */
  ghost predicate Chained<T>(s: Loop<T>, l: seq<T>, j: nat)
    requires l != []
  {
    && s.pos == Reached(l, j) && s.k == j
    && (forall i {:trigger Next(s.m, Src(i))} :: 0 <= i < |l| - 1 ==> Next(s.m, Src(i)) == Src(i + 1))
    && (j > 0 ==> Next(s.m, Src(|l| - 1)) == New(0))
    && (forall i {:trigger Next(s.m, New(i))} :: 0 <= i < j - 1 ==> Next(s.m, New(i)) == New(i + 1))
    && Prev(s.m, DstHead) == if j == 0 then Src(|l| - 1) else New(j - 1)
  }

  lemma TurnPointers<T>(s: Loop<T>)
    requires s.pos != SrcHead && Prev(s.m, DstHead) != New(s.k)
    ensures var t := Turn(s);
            && t.k == s.k + 1 && t.pos == Next(t.m, s.pos)
            && (forall a {:trigger Next(t.m, a)} ::
                  Next(t.m, a) == if a == New(s.k) then DstHead else if a == Prev(s.m, DstHead) then New(s.k) else Next(s.m, a))
            && (forall a {:trigger Prev(t.m, a)} ::
                  Prev(t.m, a) == if a == DstHead then New(s.k) else if a == New(s.k) then Prev(s.m, DstHead) else Prev(s.m, a))
            && t.m.val == if s.pos in s.m.val then s.m.val[New(s.k) := s.m.val[s.pos]] else s.m.val
  {
    hide AddTail;
    PointersAfterAdd(s.m, New(s.k));
    var m := AddTail(s.m, New(s.k));
    assert forall a :: Next(Turn(s).m, a) == Next(m, a) && Prev(Turn(s).m, a) == Prev(m, a);
  }

  lemma ChainGrows<T>(s: Loop<T>, l: seq<T>, j: nat)
    requires l != [] && Chained(s, l, j)
    ensures Chained(Turn(s), l, j + 1)
  {
    hide Turn, Next, Prev;
    TurnPointers(s);
    var t := Turn(s);
    assert t.pos == Next(t.m, Reached(l, j));
    if j < |l| - 1 {
      assert Next(t.m, Src(j)) == Next(s.m, Src(j)) == Src(j + 1);
    } else if j == |l| - 1 {
      assert Next(t.m, Src(j)) == New(0);
    } else {
      assert Next(t.m, New(j - |l|)) == New(j - |l| + 1);
    }
  }

  lemma {:induction false} WalkIsChained<T>(m: Mem<T>, l: seq<T>, j: nat)
    requires IsSource(m, l) && l != []
    ensures Chained(Turns(Start(m, true), j), l, j)
  {
    if j > 0 {
      WalkIsChained(m, l, j - 1);
      ChainGrows(Turns(Start(m, true), j - 1), l, j - 1);
    } else {
      hide Start, Next, Prev;
      AtTheStart(m, true);
    }
  }

  /** A list with items is never copied to the end: the walk runs on into what it appends. */
  lemma CopyNeverEnds<T>(m: Mem<T>, l: seq<T>, j: nat)
    requires IsSource(m, l) && l != []
    ensures !Ends(Start(m, true), j)
  {
    WalkIsChained(m, l, j);
  }

  /** The head copied from an empty list makes the source's head look like an item of the copy. */
  lemma EmptyCopyHoldsTheSource<T>(m: Mem<T>, j: nat)
    requires IsSource(m, [])
    ensures Ends(Start(m, true), j) && Next(Turns(Start(m, true), j).m, DstHead) == SrcHead
  {
    if j > 0 {
      EmptyCopyHoldsTheSource(m, j - 1);
    }
  }

  // ---------------------------------------------------------------- with the head left as it was

  ghost predicate CopiedSoFar<T>(s: Loop<T>, l: seq<T>, j: nat)
    requires j <= |l|
  {
    && s.pos == SrcAt(l, j) && s.k == j && IsSource(s.m, l)
    && Next(s.m, DstHead) == (if j == 0 then DstHead else New(0))
    && Prev(s.m, DstHead) == (if j == 0 then DstHead else New(j - 1))
    && (forall i {:trigger Next(s.m, New(i))} :: 0 <= i < j ==> Next(s.m, New(i)) == if i + 1 < j then New(i + 1) else DstHead)
    && (forall i :: 0 <= i < j ==> New(i) in s.m.val && s.m.val[New(i)] == l[i])
  }

  lemma SourceIsKept<T>(s: Loop<T>, l: seq<T>, j: nat)
    requires j < |l| && CopiedSoFar(s, l, j)
    ensures IsSource(Turn(s).m, l)
  {
    hide Turn, Next, Prev;
    TurnPointers(s);
    var t := Turn(s);
    forall i | 0 <= i < |l|
      ensures Next(t.m, Src(i)) == SrcAt(l, i + 1)
    {
      assert Next(t.m, Src(i)) == Next(s.m, Src(i));
    }
  }

  lemma ItemsAreLinked<T>(s: Loop<T>, l: seq<T>, j: nat)
    requires j < |l| && CopiedSoFar(s, l, j)
    ensures var m := Turn(s).m;
            && Next(m, DstHead) == New(0) && Prev(m, DstHead) == New(j)
            && (forall i {:trigger Next(m, New(i))} :: 0 <= i < j + 1 ==> Next(m, New(i)) == if i < j then New(i + 1) else DstHead)
  {
    hide Turn, Next, Prev, IsSource;
    TurnPointers(s);
  }

  lemma ItemsAreCopies<T>(s: Loop<T>, l: seq<T>, j: nat)
    requires j < |l| && CopiedSoFar(s, l, j)
    ensures var m := Turn(s).m; forall i :: 0 <= i < j + 1 ==> New(i) in m.val && m.val[New(i)] == l[i]
  {
    hide Turn, Next, Prev;
    TurnPointers(s);
  }

  lemma CopyGrows<T>(s: Loop<T>, l: seq<T>, j: nat)
    requires j < |l| && CopiedSoFar(s, l, j)
    ensures CopiedSoFar(Turn(s), l, j + 1)
  {
    SourceIsKept(s, l, j);
    ItemsAreLinked(s, l, j);
    ItemsAreCopies(s, l, j);
    assert Turn(s).pos == SrcAt(l, j + 1) by {
      hide Turn, Next, Prev;
      TurnPointers(s);
      assert Next(Turn(s).m, Src(j)) == SrcAt(l, j + 1);
    }
    hide Turn, Next, Prev, IsSource;
    TurnPointers(s);
  }

  lemma {:induction false} WalkCopies<T>(m: Mem<T>, l: seq<T>, j: nat)
    requires IsSource(m, l) && j <= |l|
    ensures CopiedSoFar(Turns(Start(m, false), j), l, j)
  {
    if j > 0 {
      WalkCopies(m, l, j - 1);
      CopyGrows(Turns(Start(m, false), j - 1), l, j - 1);
    } else {
      hide Start, Next, Prev;
      AtTheStart(m, false);
      var n := Start(m, false).m;
      assert forall i :: 0 <= i < |l| ==> Next(n, Src(i)) == Next(m, Src(i));
    }
  }

  /** The loop makes a proper copy if and only if the head was not copied over. */
  lemma WhenAListIsCopied<T>(m: Mem<T>, l: seq<T>, copied: bool)
    requires IsSource(m, l)
    ensures CopiesWell(m, l, copied) <==> !copied
  {
    if copied {
      if l == [] {
        forall j: nat
          ensures !Proper(Turns(Start(m, true), j).m, l)
        {
          EmptyCopyHoldsTheSource(m, j);
        }
      } else {
        forall j: nat
          ensures !Ends(Start(m, true), j)
        {
          CopyNeverEnds(m, l, j);
        }
      }
    } else {
      WalkCopies(m, l, |l|);
      var s := Turns(Start(m, false), |l|);
      hide Turns, Start;
      assert Ends(Start(m, false), |l|) && Proper(s.m, l);
    }
  }

  // ---------------------------------------------------------------- objects

  /** A list that an object embeds, the memory that holds it, and the bits of the mask that appending marks. */
  datatype Kept<A, T> = Kept(m: Mem<T>, l: seq<T>, marks: set<A>)

  /** An object of some type: the mask is in the header, and the plain data and the lists come after it. */
  datatype Object<A, D, T> = Object(msgtype: int, mask: set<A>, plain: D, lists: seq<Kept<A, T>>)

  ghost predicate IsObject<A, D, T>(o: Object<A, D, T>) {
    forall i :: 0 <= i < |o.lists| ==> IsSource(o.lists[i].m, o.lists[i].l)
  }

  /** The loop over the list at `i` when it has ended after so many turns. */
  function EndOf<A, D, T>(o: Object<A, D, T>, i: nat, turns: seq<nat>): Loop<T>
    requires i < |o.lists| == |turns|
  {
    Turns(Start(o.lists[i].m, true), turns[i])
  }

  /** The mask after the first `n` loops. */
  function Marked<A, D, T>(o: Object<A, D, T>, n: nat, turns: seq<nat>): set<A>
    requires n <= |o.lists| == |turns|
  {
    if n == 0 then {}
    else Marked(o, n - 1, turns) + if EndOf(o, n - 1, turns).k > 0 then o.lists[n - 1].marks else {}
  }

  /**
   `nl_object_clone` returns `c`: a new object has an empty mask, the message type is copied, and so is all
   that comes after the header; then each loop ends, after so many turns.
   */
  ghost predicate Clones<A, D, T>(o: Object<A, D, T>, c: Object<A, D, T>, turns: seq<nat>) {
    && |c.lists| == |o.lists| == |turns|
    && c.msgtype == o.msgtype && c.plain == o.plain && c.mask == Marked(o, |o.lists|, turns)
    && (forall i :: 0 <= i < |o.lists| ==>
          Ends(Start(o.lists[i].m, true), turns[i]) && c.lists[i] == o.lists[i].(m := EndOf(o, i, turns).m))
  }

  /** The copy is equal, with lists of its own, and the object has kept its lists. */
  ghost predicate IsEqualCopy<A, D, T>(o: Object<A, D, T>, c: Object<A, D, T>) {
    && c.msgtype == o.msgtype && c.mask == o.mask && c.plain == o.plain && |c.lists| == |o.lists|
    && (forall i :: 0 <= i < |o.lists| ==> Proper(c.lists[i].m, o.lists[i].l))
  }

  lemma {:induction false} NothingMarked<A, D, T>(o: Object<A, D, T>, n: nat, turns: seq<nat>)
    requires IsObject(o) && n <= |o.lists| == |turns|
    requires forall i :: 0 <= i < n ==> Ends(Start(o.lists[i].m, true), turns[i])
    ensures forall i :: 0 <= i < n ==> o.lists[i].l == []
    ensures Marked(o, n, turns) == {}
  {
    hide Turns, Start, IsSource, Ends;
    if n > 0 {
      NothingMarked(o, n - 1, turns);
      var k := o.lists[n - 1];
      if k.l != [] {
        CopyNeverEnds(k.m, k.l, turns[n - 1]);
      } else {
        NothingAppended(k.m, turns[n - 1]);
      }
    }
  }

  lemma {:induction false} NothingAppended<T>(m: Mem<T>, j: nat)
    requires IsSource(m, [])
    ensures Turns(Start(m, true), j) == Start(m, true) && Start(m, true).k == 0 && Ends(Start(m, true), j)
  {
    if j > 0 {
      NothingAppended(m, j - 1);
    }
  }

  /** What is returned has an empty mask and, for a list, one that begins with the head of the source. */
  lemma WhatACloneIs<A, D, T>(o: Object<A, D, T>, c: Object<A, D, T>, turns: seq<nat>)
    requires IsObject(o) && Clones(o, c, turns)
    ensures c.mask == {} && c.plain == o.plain
    ensures forall i :: 0 <= i < |o.lists| ==> o.lists[i].l == [] && Next(c.lists[i].m, DstHead) == SrcHead
  {
    NothingMarked(o, |o.lists|, turns);
    hide Turns, Start, Ends, Next, Marked;
    forall i | 0 <= i < |o.lists|
      ensures Next(c.lists[i].m, DstHead) == SrcHead
    {
      EmptyCopyHoldsTheSource(o.lists[i].m, turns[i]);
    }
  }

  /** The clone of an object without items in its lists. */
  function CloneOf<A, D, T>(o: Object<A, D, T>): Object<A, D, T> {
    o.(mask := {}, lists := seq(|o.lists|, i requires 0 <= i < |o.lists| => o.lists[i].(m := Start(o.lists[i].m, true).m)))
  }

  lemma EmptyListsAreCloned<A, D, T>(o: Object<A, D, T>)
    requires IsObject(o) && forall i :: 0 <= i < |o.lists| ==> o.lists[i].l == []
    ensures Clones(o, CloneOf(o), seq(|o.lists|, _ => 0))
  {
    hide Start, IsSource, Ends, Marked;
    var turns := seq(|o.lists|, _ => 0);
    forall i | 0 <= i < |o.lists|
      ensures Ends(Start(o.lists[i].m, true), 0)
    {
      NothingAppended(o.lists[i].m, 0);
    }
    NothingMarked(o, |o.lists|, turns);
  }

  /** `nl_object_clone` returns if and only if every list is empty. */
  lemma WhenCloningReturns<A, D, T>(o: Object<A, D, T>)
    requires IsObject(o)
    ensures (exists c, turns :: Clones(o, c, turns)) <==> forall i :: 0 <= i < |o.lists| ==> o.lists[i].l == []
  {
    hide Clones, IsObject;
    if c, turns :| Clones(o, c, turns) {
      WhatACloneIs(o, c, turns);
    } else if forall i :: 0 <= i < |o.lists| ==> o.lists[i].l == [] {
      EmptyListsAreCloned(o);
    }
  }

  lemma NotProper<T>(m: Mem<T>, l: seq<T>)
    ensures Next(m, DstHead) == SrcHead ==> !Proper(m, l)
  {
  }

  /**
   It returns an equal object of its own if and only if the object embeds no list and has nothing marked in
   its mask.
   */
  lemma WhenAnObjectIsCloned<A, D, T>(o: Object<A, D, T>)
    requires IsObject(o)
    ensures (exists c, turns :: Clones(o, c, turns) && IsEqualCopy(o, c)) <==> o.lists == [] && o.mask == {}
  {
    hide Clones;
    if c, turns :| Clones(o, c, turns) && IsEqualCopy(o, c) {
      WhatACloneIs(o, c, turns);
      hide IsObject;
      if o.lists != [] {
        NotProper(c.lists[0].m, o.lists[0].l);
      }
    }
    if o.lists == [] && o.mask == {} {
      EmptyListsAreCloned(o);
      assert IsEqualCopy(o, CloneOf(o));
    }
  }

  // ---------------------------------------------------------------- families

  /** The memory of a list with no items, and of one with one item. */
  function NoItem<T>(): Mem<T> {
    Mem(map[], map[], map[])
  }

  function OneItem<T>(v: T): Mem<T> {
    Mem(map[SrcHead := Src(0), Src(0) := SrcHead], map[SrcHead := Src(0), Src(0) := SrcHead], map[Src(0) := v])
  }

  /** One operation is enough: cloning a family that has it does not end, however long it runs. */
  lemma CloneOfOneOperation(id: nat, flags: nat, j: nat)
    ensures var m := OneItem((id, flags));
            IsSource(m, [(id, flags)]) && !Ends(Start(m, true), j)
  {
    CopyNeverEnds(OneItem((id, flags)), [(id, flags)], j);
  }

  /** A family of which the identifier has been set, and no other field; it has no operations and no groups. */
  function OnlyId(msgtype: int, id: nat): Object<FamilyAttr, nat, (nat, string)> {
    Object(msgtype, {HasId}, id, [Kept(NoItem(), [], {HasOps}), Kept(NoItem(), [], {})])
  }

  /** Its clone is returned, but `genl_family_get_id` gives 0 for it. */
  lemma CloneOfOnlyId(msgtype: int, id: nat)
    ensures var o := OnlyId(msgtype, id);
            && MarkedId(o.mask, o.plain) == id
            && (exists c, turns :: Clones(o, c, turns))
            && (forall c, turns :: Clones(o, c, turns) ==> c.plain == id && MarkedId(c.mask, c.plain) == 0)
  {
    var o := OnlyId(msgtype, id);
    assert IsObject(o);
    hide Clones, IsObject;
    WhenCloningReturns(o);
    forall c, turns | Clones(o, c, turns)
      ensures c.plain == id && MarkedId(c.mask, c.plain) == 0
    {
      WhatACloneIs(o, c, turns);
    }
  }
}
