/**
 Reference-counted objects and the caches that hold them (wifi/libnl-tiny/cache.c, object.c,
 include/netlink/object.h).  A `Store` is the set of objects and caches allocated so far, with a ghost
 account of the references held outside the caches.
 */
module ObjectCache {
  import opened ObjectLists

  const NLE_OBJ_MISMATCH := 23

  /** A live object counts its holders, plus one for the cache that lists it. */
  ghost predicate ObjectValid(o: NlObject, held: nat)
    reads o`cache, o`freed, o`refcnt, (if o.cache == null then {} else {o.cache})`items
  {
    && (o.cache != null ==> o in o.cache.items && !o.freed)
    && (o.freed ==> held == 0)
    && (!o.freed ==> o.refcnt == held + (if o.cache != null then 1 else 0) && o.refcnt > 0)
  }

  lemma UncachedIsValid(o: NlObject, held: nat)
    requires o.cache == null && (o.freed ==> held == 0) && (!o.freed ==> o.refcnt == held > 0)
    ensures ObjectValid(o, held)
  {
  }

  /** The list of a cache runs through distinct objects that point back at it. */
  ghost predicate CacheShape(c: NlCache)
    reads c`items, c`next, c`prev, c`freed
    reads (set o | o in c.items)`cache, (set o | o in c.items)`next, (set o | o in c.items)`prev
  {
    && (forall o :: o in c.items ==> o.cache == c)
    && c.Ring() && Distinct(c.items)
    && (c.freed ==> c.items == [])
  }

  /** The fields of a family other than its mask and its lists. */
  function PlainData(f: Family): (nat, string, nat, nat, nat) {
    (f.id, f.name, f.version, f.hdrsize, f.maxattr)
  }

  class Store {
    ghost var objects: set<NlObject>
    ghost var caches: set<NlCache>

    /** References held by callers. */
    ghost var holders: map<NlObject, nat>

    ghost predicate InSomeCache(o: NlObject)
      reads this`caches, o`cache
    {
      o.cache != null ==> o.cache in caches
    }

    ghost predicate Contains(c: NlCache)
      reads this`objects, c`items
    {
      forall o :: o in c.items ==> o in objects
    }

    ghost predicate Valid()
      reads this, objects, caches
    {
      && holders.Keys == objects
      && (forall o :: o in objects ==> InSomeCache(o) && ObjectValid(o, holders[o]))
      && (forall c :: c in caches ==> Contains(c) && CacheShape(c) && c.nitems == |c.items|)
    }

    /**
     The state in the middle of adding or removing: `n` is in no list, but the reference a cache has
     just taken, or is about to give up, is still counted; the count of `short` is one too many.
     */
    ghost predicate ValidBut(n: NlObject, short: NlCache?)
      reads this, objects, caches
    {
      && holders.Keys == objects
      && n in objects && !n.freed && n.cache == null && n.refcnt == holders[n] + 1
      && (forall o :: o in objects && o != n ==> InSomeCache(o) && ObjectValid(o, holders[o]))
      && (forall c :: c in caches ==>
            Contains(c) && CacheShape(c) && c.nitems == |c.items| + if c == short then 1 else 0)
    }

    lemma ItemsAreLive(c: NlCache)
      requires Valid() && c in caches
      ensures forall o :: o in c.items ==> o in objects && o in holders && !o.freed && o.cache == c
    {
    }

    /**
     What the invariant says of listed objects: the count of a cache is the length of its list; a listed
     object is alive, counts its outside holders and the cache, and is in no other cache.
     */
    lemma ListedObjects(c: NlCache, d: NlCache, o: NlObject)
      requires Valid() && c in caches && d in caches && o in c.items
      ensures c.nitems == |c.items| && o.cache == c
      ensures o in holders && !o.freed && o.refcnt == holders[o] + 1
      ensures o in d.items ==> d == c
      ensures forall i, j :: 0 <= i < |c.items| && 0 <= j < |c.items| && c.items[i] == c.items[j] == o ==> i == j
    {
    }

    lemma InACache(o: NlObject)
      requires Valid() && o in objects && o.cache != null
      ensures o.cache in caches && !o.freed && o in o.cache.items
    {
    }

    /** Where the walk of a list begins; nothing it meets has been freed. */
    lemma FirstLinks(c: NlCache)
      requires Valid() && c in caches
      ensures Distinct(c.items) && c.next == c.At(c.items, 0) && c.nitems == |c.items|
      ensures forall o :: o in c.items ==> o in objects && o in holders && o.cache == c && !o.freed
      ensures forall i {:trigger c.items[i].next} :: 0 <= i < |c.items| ==> c.items[i].next == c.At(c.items, i + 1)
    {
    }

    /** An object whose list pointer points at itself is in no cache. */
    lemma NeverListed(o: NlObject)
      requires Valid() && o in objects && o.ListEmpty()
      ensures o.cache == null
    {
    }

    lemma EveryObjectIsCounted()
      requires Valid()
      ensures holders.Keys == objects
    {
    }

    /** What a caller may do with an object: it holds a reference. */
    ghost predicate Held(o: NlObject)
      reads this
    {
      o in holders && holders[o] > 0
    }

    constructor ()
      ensures Valid() && objects == {} && caches == {}
    {
      objects, caches, holders := {}, {}, map[];
    }

    /** `nl_object_alloc` for a caller. */
    method Alloc(ops: int, data: Family) returns (o: NlObject)
      requires Valid()
      modifies this
      ensures Valid() && fresh(o) && caches == old(caches)
      ensures objects == old(objects) + {o} && holders == old(holders)[o := 1]
      ensures o.ops == ops && o.data == data && o.cache == null && o.ListEmpty() && !o.freed
    {
      hide CacheShape;
      o := new NlObject(ops, data);
      objects, holders := objects + {o}, holders[o := 1];
    }

    /** Filling in the data of an object. */
    method SetData(o: NlObject, data: Family)
      requires Valid() && o in objects
      modifies o`data
      ensures Valid() && o.data == data
    {
      hide CacheShape, ObjectValid;
      o.data := data;
    }

    /** `nl_cache_alloc` */
    method AllocCache(ops: int) returns (c: NlCache)
      requires Valid()
      modifies this
      ensures Valid() && fresh(c) && objects == old(objects) && holders == old(holders)
      ensures caches == old(caches) + {c}
      ensures c.ops == ops && c.items == [] && !c.freed
    {
      c := new NlCache(ops);
      caches := caches + {c};
    }

    /** `nl_object_get` */
    method Get(o: NlObject)
      requires Valid() && o in objects && !o.freed
      modifies this`holders, o`refcnt
      ensures Valid() && holders == old(holders)[o := old(holders)[o] + 1]
    {
      hide CacheShape;
      o.refcnt := o.refcnt + 1;
      holders := holders[o := holders[o] + 1];
    }

    /** `nl_object_put`: frees the object exactly when nothing else refers to it. */
    method Put(o: NlObject?)
      requires Valid() && (o != null ==> o in objects && Held(o))
      modifies this`holders, (if o == null then {} else {o})`refcnt, (if o == null then {} else {o})`freed
      ensures Valid()
      ensures o == null ==> holders == old(holders)
      ensures o != null ==> holders == old(holders)[o := old(holders)[o] - 1]
      ensures o != null ==> (o.freed <==> old(holders)[o] == 1 && o.cache == null)
    {
      hide CacheShape;
      if o == null {
        return;
      }
      o.Drop();
      holders := holders[o := holders[o] - 1];
    }

    /**
     `nl_object_clone`, when it returns: a new object with one reference, in no list.  Its plain data is
     copied, its mask is not; what becomes of its lists is left open here (see module FamilyLists).
     */
    method Clone(o: NlObject) returns (n: NlObject)
      ensures fresh(n) && n.ops == o.ops && n.refcnt == 1 && n.cache == null && n.ListEmpty() && !n.freed
      ensures n.data.mask == {} && PlainData(n.data) == PlainData(o.data)
    {
      var opers: seq<(nat, nat)>, groups: seq<(string, nat)> := *, *;
      n := new NlObject(o.ops, o.data.(mask := {}, opers := opers, groups := groups));
    }

    /** `__cache_add` */
    method AppendItem(c: NlCache, n: NlObject)
      requires ValidBut(n, null) && c in caches && !c.freed
      modifies c`items, c`next, c`prev, c`nitems, n`cache, n`next, n`prev, (set o | o in c.items)`next
      ensures Valid() && c.items == old(c.items) + [n] && n.cache == c
    {
      hide NlCache.RunsThrough, Distinct;
      DistinctAppend(c.items, n);
      n.cache := c;
      ListAddTail(c, n);
      assert forall d :: d in caches && d != c ==> d.items == old(d.items) && d.Ring();
      c.nitems := c.nitems + 1;
      assert n in c.items;
      forall o | o in objects
        ensures ObjectValid(o, holders[o])
      {
      }
    }

    /** The branch of `nl_cache_add` for an object that is, or was, in a list. */
    method AddClone(c: NlCache, o: NlObject) returns (n: NlObject)
      requires Valid() && c in caches && !c.freed && o in objects && !o.freed
      modifies this, c`items, c`next, c`prev, c`nitems, (set x | x in c.items)`next
      ensures Valid() && caches == old(caches) && c.items == old(c.items) + [n] && n.cache == c && !n.freed
      ensures fresh(n) && objects == old(objects) + {n} && holders == old(holders)[n := 0]
      ensures n.data.mask == {} && PlainData(n.data) == PlainData(o.data)
    {
      hide CacheShape, PlainData;
      n := Clone(o);
      objects, holders := objects + {n}, holders[n := 0];
      assert ValidBut(n, null);
      AppendItem(c, n);
    }

    /**
     `nl_cache_add`: an object that has never been listed is shared, any other is cloned.  The cache
     takes a reference of its own; the caller's stays with the caller.  `n` is the object listed.
     */
    method Add(c: NlCache, o: NlObject) returns (r: int, ghost n: NlObject)
      requires Valid() && c in caches && !c.freed && o in objects && !o.freed
      modifies this, c`items, c`next, c`prev, c`nitems, o`refcnt, o`cache, o`next, o`prev, (set x | x in c.items)`next
      ensures Valid() && caches == old(caches)
      ensures r == if c.ops != o.ops then -23 else 0
      ensures r != 0 ==>
                c.items == old(c.items) && objects == old(objects) && holders == old(holders) && o.cache == old(o.cache)
      ensures r == 0 ==> c.items == old(c.items) + [n] && n.cache == c && !n.freed
      ensures r == 0 && !old(o.ListEmpty()) ==> n.data.mask == {} && PlainData(n.data) == PlainData(o.data)
      ensures r == 0 && !old(o.ListEmpty()) ==>
                fresh(n) && objects == old(objects) + {n} && holders == old(holders)[n := 0] && o.cache == old(o.cache)
      ensures r == 0 && old(o.ListEmpty()) ==> n == o && objects == old(objects) && holders == old(holders)
    {
      hide CacheShape, PlainData;
      n := o;
      if c.ops != o.ops {
        return -NLE_OBJ_MISMATCH, o;
      }
      if !o.ListEmpty() {
        n := AddClone(c, o);
      } else {
        NeverListed(o);
        o.refcnt := o.refcnt + 1;
        AppendItem(c, o);
      }
      return 0, n;
    }

    /** The first half of `nl_cache_remove`: `nl_list_del` on `ce_list`, which finds its neighbours by itself. */
    method Unlink(c: NlCache, o: NlObject)
      requires Valid() && o in objects && o.cache == c
      modifies c`items, c`next, c`prev, o`cache
      modifies (set x | x in c.items && x != o)`next, (set x | x in c.items && x != o)`prev
      ensures ValidBut(o, c) && o.cache == null && c.items == Delete(old(c.items), o)
    {
      hide Delete, Distinct, NlCache.RunsThrough;
      ghost var l := c.items;
      ghost var k :| 0 <= k < |l| && l[k] == o;
      assert CacheShape(c);
      ListDel(o, c, k);
      o.cache := null;
      DeleteFacts(l, o);
      assert forall d :: d in caches && d != c ==> d.items == old(d.items) && d.Ring();
    }

    /** The second half of `nl_cache_remove`: the reference is given up before the count goes down. */
    method PutUnlinked(c: NlCache, o: NlObject)
      requires ValidBut(o, c) && c in caches
      modifies o`refcnt, o`freed, c`nitems
      ensures Valid() && o in holders && (o.freed <==> holders[o] == 0)
    {
      hide CacheShape, ObjectValid;
      o.Drop();
      c.nitems := c.nitems - 1;
      UncachedIsValid(o, holders[o]);
    }

    /** `nl_cache_remove`: the cache's reference goes; the object is freed if it was the last. */
    method Remove(o: NlObject)
      requires Valid() && o in objects && !o.freed
      modifies o`cache, o`refcnt, o`freed
      modifies (if o.cache == null then {} else {o.cache})`items, (if o.cache == null then {} else {o.cache})`nitems
      modifies (if o.cache == null then {} else {o.cache})`next, (if o.cache == null then {} else {o.cache})`prev
      modifies (if o.cache == null then {} else set x | x in o.cache.items && x != o)`next
      modifies (if o.cache == null then {} else set x | x in o.cache.items && x != o)`prev
      ensures Valid() && o.cache == null
      ensures old(o.cache) == null ==> o.refcnt == old(o.refcnt) && !o.freed
      ensures old(o.cache) != null ==>
                && (o.freed <==> holders[o] == 0)
                && old(o.cache).items == Delete(old(o.cache.items), o)
    {
      hide Delete, CacheShape, ObjectValid, Valid, ValidBut;
      var c := o.cache;
      if c == null {
        return;
      }
      InACache(o);
      Unlink(c, o);
      PutUnlinked(c, o);
    }

    /**
     `nl_cache_clear`.  `nl_list_for_each_entry_safe` keeps the successor of the current item, fetched
     before the item is removed and perhaps freed; so it visits every item once, and reads no pointer of
     a freed object.
     */
    method Clear(c: NlCache)
      requires Valid() && c in caches
      modifies c`items, c`next, c`prev, c`nitems, (set o | o in c.items)`cache, (set o | o in c.items)`refcnt
      modifies (set o | o in c.items)`freed, (set o | o in c.items)`next, (set o | o in c.items)`prev
      ensures Valid() && c.items == [] && c.nitems == 0
      ensures forall o :: o in old(c.items) ==>
                o.cache == null && !o.ListEmpty() && o in holders && (o.freed <==> holders[o] == 0)
    {
      hide CacheShape, ObjectValid, Delete, Valid, InSomeCache, Contains, Distinct;
      ghost var all := c.items;
      ghost var k := 0;
      FirstLinks(c);
      assert all[0..] == all;
      var pos := c.next;
      var n := Next(pos);
      while pos != Head(c)
        invariant 0 <= k <= |all| && Valid() && c.items == all[k..]
        invariant pos == c.At(all, k) && (k < |all| ==> n == c.At(all, k + 1))
        invariant forall i :: 0 <= i < k ==> all[i] in holders && all[i].cache == null && (all[i].freed <==> holders[all[i]] == 0)
        invariant forall i {:trigger all[i].next} :: 0 <= i < k ==> all[i].next == c.At(all, i + 1)
        decreases |all| - k
      {
        var obj := pos.o;
        assert c.items[0] == all[k] == obj;
        FirstLinks(c);
        DeleteFirst(c.items);
        Remove(obj);
        assert all[k..][1..] == all[k + 1..];
        FirstLinks(c);
        pos := n;
        n := Next(n);
        k := k + 1;
      }
      FirstLinks(c);
    }

    /** `nl_cache_free` */
    method FreeCache(c: NlCache?)
      requires Valid() && (c != null ==> c in caches && !c.freed)
      modifies if c == null then {} else {c}
      modifies (if c == null then {} else set o | o in c.items)`cache, (if c == null then {} else set o | o in c.items)`refcnt
      modifies (if c == null then {} else set o | o in c.items)`freed, (if c == null then {} else set o | o in c.items)`next
      modifies (if c == null then {} else set o | o in c.items)`prev
      ensures Valid()
      ensures c != null ==> c.items == [] && c.freed
      ensures c != null ==> forall o :: o in old(c.items) ==>
                o.cache == null && !o.ListEmpty() && o in holders && (o.freed <==> holders[o] == 0)
    {
      if c == null {
        return;
      }
      Clear(c);
      c.freed := true;
    }
  }
}
