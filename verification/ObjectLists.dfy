/**
 Objects and caches as memory: an object is linked into a cache through list pointers of its own
 (wifi/libnl-tiny/include/netlink/list.h, object.h, netlink-types.h).
 */
module ObjectLists {

  /** The bits of `ce_mask`, which say what has been set. */
  datatype FamilyAttr = HasId | HasName | HasVersion | HasHdrsize | HasMaxattr | HasOps

  /** `struct genl_family`, the data of the objects cached here. */
  datatype Family = Family(mask: set<FamilyAttr>, id: nat, name: string, version: nat, hdrsize: nat, maxattr: nat,
                           opers: seq<(nat, nat)>, groups: seq<(string, nat)>)

  const NO_FAMILY := Family({}, 0, "", 0, 0, 0, [], [])

  /** `genl_family_get_id`: the identifier, if the mask says that it has been set. */
  function MarkedId(mask: set<FamilyAttr>, id: nat): nat {
    if HasId in mask then id else 0
  }

  function GetId(f: Family): nat {
    MarkedId(f.mask, f.id)
  }

  /** `struct nl_list_head *`: null, the `ce_list` of an object, or the `c_items` of a cache. */
  datatype Link = Null | Item(o: NlObject) | Head(c: NlCache)

  /** `struct nl_object`, with the data of a derived object. */
  class NlObject {
    const ops: int
    var data: Family
    var refcnt: int
    var cache: NlCache?
    var next: Link
    var prev: Link

    /** The memory has been released. */
    ghost var freed: bool

    /** `nl_object_alloc`: one reference, in no list. */
    constructor (ops: int, data: Family)
      ensures this.ops == ops && this.data == data
      ensures refcnt == 1 && cache == null && ListEmpty() && !freed
    {
      this.ops, this.data := ops, data;
      refcnt, cache, freed := 1, null, false;
      next, prev := Null, Null;
      new;
      next, prev := Item(this), Item(this);
    }

    /** `nl_list_empty` on `ce_list`: it points at itself. */
    predicate ListEmpty()
      reads this`next
    {
      next == Item(this)
    }

    /** `nl_object_put` and the `nl_object_free` it may lead to. */
    method Drop()
      requires !freed && refcnt > 0
      requires refcnt == 1 ==> cache == null
      modifies this`refcnt, this`freed
      ensures refcnt == old(refcnt) - 1 && (freed <==> refcnt == 0)
    {
      refcnt := refcnt - 1;
      if refcnt <= 0 {
        Free();
      }
    }

    /** `nl_object_free`.  The object is in no cache: its removal from one is never needed here. */
    ghost method Free()
      requires !freed && cache == null
      modifies this`freed
      ensures freed
    {
      freed := true;
    }
  }

  /** `struct nl_cache`; `items` are the objects its list runs through. */
  class NlCache {
    const ops: int
    var next: Link
    var prev: Link
    var nitems: int
    ghost var items: seq<NlObject>
    ghost var freed: bool

    constructor (ops: int)
      ensures this.ops == ops && items == [] && nitems == 0 && !freed && Ring()
    {
      this.ops, items, nitems, freed := ops, [], 0, false;
      next, prev := Null, Null;
      new;
      next, prev := Head(this), Head(this);
    }

    /** The node at place `i` of a list; the head stands before the first item and after the last. */
    ghost function At(l: seq<NlObject>, i: int): Link {
      if 0 <= i < |l| then Item(l[i]) else Head(this)
    }

    /** The pointers run through these items and back, in both directions. */
    ghost predicate RunsThrough(l: seq<NlObject>)
      reads this`next, this`prev, (set o | o in l)`next, (set o | o in l)`prev
    {
      && next == At(l, 0) && prev == At(l, |l| - 1)
      && (forall i {:trigger l[i].next} :: 0 <= i < |l| ==> l[i].next == At(l, i + 1))
      && (forall i {:trigger l[i].prev} :: 0 <= i < |l| ==> l[i].prev == At(l, i - 1))
    }

    ghost predicate Ring()
      reads this`next, this`prev, this`items, (set o | o in items)`next, (set o | o in items)`prev
    {
      RunsThrough(items)
    }
  }

  ghost predicate Distinct(l: seq<NlObject>) {
    forall i, j :: 0 <= i < j < |l| ==> l[i] != l[j]
  }

  lemma DistinctAppend(l: seq<NlObject>, n: NlObject)
    requires Distinct(l) && n !in l
    ensures Distinct(l + [n])
  {
  }

  /** The `next` pointer of a list node, whose memory has not been released. */
  function Next(p: Link): Link
    requires p != Null && (p.Item? ==> !p.o.freed)
    reads if p.Item? then {p.o} else {}, if p.Head? then {p.c} else {}
  {
    match p
    case Item(o) => o.next
    case Head(c) => c.next
  }

  method SetNext(p: Link, v: Link)
    requires p != Null && (p.Item? ==> !p.o.freed)
    modifies (if p.Item? then {p.o} else {})`next, (if p.Head? then {p.c} else {})`next
    ensures Next(p) == v
  {
    match p
    case Item(o) => o.next := v;
    case Head(c) => c.next := v;
  }

  method SetPrev(p: Link, v: Link)
    requires p != Null && (p.Item? ==> !p.o.freed)
    modifies (if p.Item? then {p.o} else {})`prev, (if p.Head? then {p.c} else {})`prev
    ensures p.Item? ==> p.o.prev == v
    ensures p.Head? ==> p.c.prev == v
  {
    match p
    case Item(o) => o.prev := v;
    case Head(c) => c.prev := v;
  }

  /** `nl_list_add_tail`: the pointers then run through one more item. */
  method ListAddTail(c: NlCache, n: NlObject)
    requires c.Ring() && Distinct(c.items) && n !in c.items && !n.freed && forall o :: o in c.items ==> !o.freed
    modifies c`prev, c`next, c`items, n`next, n`prev, (set o | o in c.items)`next
    ensures c.items == old(c.items) + [n] && c.Ring()
  {
    ghost var l := c.items;
    ghost var m := |l|;
    var prev := c.prev;
    assert prev == c.At(l, m - 1);
    SetNext(prev, Item(n));
    n.prev := prev;
    c.prev := Item(n);
    n.next := Head(c);
    assert forall i {:trigger l[i].next} :: 0 <= i < m ==> l[i].next == Item(if i + 1 < m then l[i + 1] else n);
    assert forall i {:trigger l[i].prev} :: 0 <= i < m ==> l[i].prev == c.At(l, i - 1);
    ExtendedRun(c, l, n);
    c.items := l + [n];
  }

  lemma ExtendedRun(c: NlCache, l: seq<NlObject>, n: NlObject)
    requires c.next == (if l == [] then Item(n) else Item(l[0])) && c.prev == Item(n)
    requires n.next == Head(c) && n.prev == c.At(l, |l| - 1)
    requires forall i {:trigger l[i].next} :: 0 <= i < |l| ==> l[i].next == Item(if i + 1 < |l| then l[i + 1] else n)
    requires forall i {:trigger l[i].prev} :: 0 <= i < |l| ==> l[i].prev == c.At(l, i - 1)
    ensures c.RunsThrough(l + [n])
  {
    var r := l + [n];
    forall i | 0 <= i < |r|
      ensures r[i].next == c.At(r, i + 1) && r[i].prev == c.At(r, i - 1)
    {
      if i < |l| {
        assert r[i] == l[i] && l[i].next == r[i].next && l[i].prev == r[i].prev;
      }
    }
  }

  /** `nl_list_del`: the pointers skip the item, whose own pointers stay as they were. */
  method ListDel(o: NlObject, ghost c: NlCache, ghost k: nat)
    requires c.Ring() && k < |c.items| && c.items[k] == o
    requires Distinct(c.items) && forall x :: x in c.items ==> !x.freed
    modifies c`prev, c`next, c`items, (set x | x in c.items && x != o)`next, (set x | x in c.items && x != o)`prev
    ensures c.items == Delete(old(c.items), o) && c.Ring()
  {
    ghost var l := c.items;
    assert l[k].next == c.At(l, k + 1) && l[k].prev == c.At(l, k - 1);
    SetPrev(o.next, o.prev);
    SetNext(o.prev, o.next);
    assert forall i {:trigger l[i].next} :: 0 <= i < |l| && i != k && i != k - 1 ==> l[i].next == c.At(l, i + 1);
    assert forall i {:trigger l[i].prev} :: 0 <= i < |l| && i != k && i != k + 1 ==> l[i].prev == c.At(l, i - 1);
    MendedRun(c, l, k);
    DeleteAt(l, k);
    c.items := l[..k] + l[k + 1..];
  }

  lemma MendedRun(c: NlCache, l: seq<NlObject>, k: nat)
    requires k < |l|
    requires c.next == c.At(l, if k == 0 then 1 else 0) && c.prev == c.At(l, if k == |l| - 1 then k - 1 else |l| - 1)
    requires k > 0 ==> l[k - 1].next == c.At(l, k + 1)
    requires k + 1 < |l| ==> l[k + 1].prev == c.At(l, k - 1)
    requires forall i {:trigger l[i].next} :: 0 <= i < |l| && i != k && i != k - 1 ==> l[i].next == c.At(l, i + 1)
    requires forall i {:trigger l[i].prev} :: 0 <= i < |l| && i != k && i != k + 1 ==> l[i].prev == c.At(l, i - 1)
    ensures c.RunsThrough(l[..k] + l[k + 1..])
  {
    var r := l[..k] + l[k + 1..];
    forall i | 0 <= i < |r|
      ensures r[i].next == c.At(r, i + 1) && r[i].prev == c.At(r, i - 1)
    {
      var j := if i < k then i else i + 1;
      assert r[i] == l[j] && l[j].next == r[i].next && l[j].prev == r[i].prev;
    }
  }

  /** A list without its first occurrence of `o`. */
  function Delete(l: seq<NlObject>, o: NlObject): seq<NlObject> {
    if l == [] then [] else if l[0] == o then l[1..] else [l[0]] + Delete(l[1..], o)
  }

  lemma DeleteFirst(l: seq<NlObject>)
    requires l != []
    ensures Delete(l, l[0]) == l[1..]
  {
  }

  lemma {:induction false} DeleteAt(l: seq<NlObject>, k: nat)
    requires k < |l| && Distinct(l)
    ensures Delete(l, l[k]) == l[..k] + l[k + 1..]
  {
    if k > 0 {
      var tail := l[1..];
      assert tail[k - 1] == l[k];
      DeleteAt(tail, k - 1);
      assert [l[0]] + (tail[..k - 1] + tail[k..]) == l[..k] + l[k + 1..];
    } else {
      assert l[1..] == l[..0] + l[1..];
    }
  }

  lemma {:induction false} DeleteFacts(l: seq<NlObject>, o: NlObject)
    requires o in l && Distinct(l)
    ensures var d := Delete(l, o);
            |d| == |l| - 1 && Distinct(d) && forall x :: x in d <==> x in l && x != o
  {
    assert l == [l[0]] + l[1..];
    assert forall k :: 0 <= k < |l[1..]| ==> l[1..][k] == l[k + 1];
    if l[0] != o {
      DeleteFacts(l[1..], o);
      assert l[0] !in l[1..];
    }
  }
}
