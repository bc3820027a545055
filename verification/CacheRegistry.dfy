/**
 The registry of cache operations (wifi/libnl-tiny/cache_mngt.c): a singly linked list threaded through
 the registered structures, whose head is a global.
 */
module CacheRegistry {
  import opened Options

  const NLE_EXIST := 6
  const NLE_INVAL := 7
  const NLE_NOCACHE := 24

  /** `struct nl_cache_ops`; `msgtypes` are the `mt_id`s up to and including the negative end mark. */
  class CacheOps {
    const name: Option<string>
    const hasObjOps: bool
    const protocol: int
    const msgtypes: seq<int>
    var next: CacheOps?

    constructor (name: Option<string>, hasObjOps: bool, protocol: int, msgtypes: seq<int>)
      ensures this.name == name && this.hasObjOps == hasObjOps
      ensures this.protocol == protocol && this.msgtypes == msgtypes
    {
      this.name, this.hasObjOps, this.protocol, this.msgtypes, next := name, hasObjOps, protocol, msgtypes, null;
    }

    /** The table of message types has its end mark. */
    ghost predicate Terminated() {
      exists i :: 0 <= i < |msgtypes| && msgtypes[i] < 0
    }
  }

  // ---------------------------------------------------------------- the list as a value

  /** What every registered structure must have, and no two may share. */
  ghost predicate Registrable(ops: CacheOps) {
    ops.name.Some? && ops.hasObjOps
  }

  ghost predicate DistinctNames(l: seq<CacheOps>) {
    && (forall i :: 0 <= i < |l| ==> Registrable(l[i]))
    && forall i, j :: 0 <= i < j < |l| ==> l[i].name != l[j].name
  }

  ghost predicate HasName(l: seq<CacheOps>, name: Option<string>) {
    exists i :: 0 <= i < |l| && l[i].name == name
  }

  ghost function Registered(l: seq<CacheOps>, ops: CacheOps): seq<CacheOps> {
    if Registrable(ops) && !HasName(l, ops.name) then [ops] + l else l
  }

  ghost function Without(l: seq<CacheOps>, ops: CacheOps): seq<CacheOps> {
    if l == [] then [] else if l[0] == ops then l[1..] else [l[0]] + Without(l[1..], ops)
  }

  /** The message types before the end mark. */
  function MsgTypes(s: seq<int>): seq<int> {
    if s == [] || s[0] < 0 then [] else [s[0]] + MsgTypes(s[1..])
  }

  /** A type is handled if it stands before every negative number. */
  lemma {:induction false} MsgTypesIff(s: seq<int>, msgtype: int)
    ensures msgtype in MsgTypes(s) <==> exists k :: 0 <= k < |s| && s[k] == msgtype && forall j :: 0 <= j <= k ==> s[j] >= 0
  {
    if s != [] {
      MsgTypesIff(s[1..], msgtype);
      assert s == [s[0]] + s[1..];
      if msgtype in MsgTypes(s) && msgtype != s[0] {
        var k :| 0 <= k < |s[1..]| && s[1..][k] == msgtype && forall j :: 0 <= j <= k ==> s[1..][j] >= 0;
        assert s[k + 1] == msgtype && forall j :: 0 < j <= k + 1 ==> s[j] == s[1..][j - 1];
      }
    }
  }

  ghost predicate Handles(ops: CacheOps, protocol: int, msgtype: int) {
    ops.protocol == protocol && msgtype in MsgTypes(ops.msgtypes)
  }

  // ---------------------------------------------------------------- the registry

  class Registry {
    var head: CacheOps?
    ghost var list: seq<CacheOps>

    /** The links from `head` visit `list` and end; names are pairwise distinct. */
    ghost predicate Valid()
      reads this, list
    {
      && head == (if list == [] then null else list[0])
      && (forall i {:trigger list[i].next} :: 0 <= i < |list| ==>
            list[i].next == if i + 1 < |list| then list[i + 1] else null)
      && DistinctNames(list)
    }

    constructor ()
      ensures Valid() && list == []
    {
      head, list := null, [];
    }

    /** `nl_cache_ops_lookup` */
    method Lookup(name: string) returns (r: CacheOps?)
      requires Valid()
      ensures r == null <==> !HasName(list, Some(name))
      ensures r != null ==> r in list && r.name == Some(name)
    {
      var ops := head;
      ghost var i := 0;
      while ops != null
        invariant 0 <= i <= |list|
        invariant ops == if i < |list| then list[i] else null
        invariant forall j :: 0 <= j < i ==> list[j].name != Some(name)
        decreases |list| - i
      {
        if ops.name == Some(name) {
          return ops;
        }
        ops := ops.next;
        i := i + 1;
      }
      return null;
    }

    /** `nl_cache_ops_associate`: the most recently registered structure that handles the type. */
    method Associate(protocol: int, msgtype: int) returns (r: CacheOps?)
      requires Valid() && forall i :: 0 <= i < |list| ==> list[i].Terminated()
      ensures r == null ==> forall i :: 0 <= i < |list| ==> !Handles(list[i], protocol, msgtype)
      ensures r != null ==>
                exists i :: 0 <= i < |list| && list[i] == r && Handles(r, protocol, msgtype) &&
                            forall j :: 0 <= j < i ==> !Handles(list[j], protocol, msgtype)
    {
      var ops := head;
      ghost var i := 0;
      while ops != null
        invariant 0 <= i <= |list|
        invariant ops == if i < |list| then list[i] else null
        invariant forall j :: 0 <= j < i ==> !Handles(list[j], protocol, msgtype)
        decreases |list| - i
      {
        if ops.protocol == protocol {
          var k := 0;
          assert ops.msgtypes[0..] == ops.msgtypes;
          while ops.msgtypes[k] >= 0
            invariant 0 <= k < |ops.msgtypes|
            invariant exists e :: k <= e < |ops.msgtypes| && ops.msgtypes[e] < 0
            invariant msgtype in MsgTypes(ops.msgtypes) <==> msgtype in MsgTypes(ops.msgtypes[k..])
            decreases |ops.msgtypes| - k
          {
            assert ops.msgtypes[k..][1..] == ops.msgtypes[k + 1..];
            if ops.msgtypes[k] == msgtype {
              assert list[i] == ops && Handles(ops, protocol, msgtype);
              return ops;
            }
            k := k + 1;
          }
        }
        ops := ops.next;
        i := i + 1;
      }
      return null;
    }

    /** `nl_cache_mngt_register` */
    method Register(ops: CacheOps) returns (r: int)
      requires Valid()
      modifies this, ops`next
      ensures Valid() && list == Registered(old(list), ops)
      ensures r == if !Registrable(ops) then -7 else if HasName(old(list), ops.name) then -6 else 0
    {
      if ops.name.None? || !ops.hasObjOps {
        return -NLE_INVAL;
      }
      var found := Lookup(ops.name.value);
      if found != null {
        return -NLE_EXIST;
      }
      assert ops !in list;
      ghost var l := list;
      ops.next := head;
      head := ops;
      list := [ops] + list;
      assert forall i {:trigger list[i].next} :: 0 < i < |list| ==>
        list[i] == l[i - 1] && l[i - 1].next == old(l[i - 1].next);
      return 0;
    }

    /**
     `nl_cache_mngt_unregister`.  The C code walks a pointer to the link that leads to each node; here
     that link is the `next` field of `prev`, or `head` while `prev` is null.
     */
    method Unregister(ops: CacheOps) returns (r: int)
      requires Valid()
      modifies this, list
      ensures Valid() && list == Without(old(list), ops)
      ensures r == if ops in old(list) then 0 else -24
    {
      hide DistinctNames, Without;
      var prev: CacheOps? := null;
      var t := head;
      ghost var i := 0;
      while t != null && t != ops
        modifies {}
        invariant 0 <= i <= |list|
        invariant prev == if i > 0 then list[i - 1] else null
        invariant t == if i < |list| then list[i] else null
        invariant forall j :: 0 <= j < i ==> list[j] != ops
        decreases |list| - i
      {
        assert t == list[i];
        prev, t := t, t.next;
        i := i + 1;
      }
      if t == null {
        NothingRemoved(list, ops);
        return -NLE_NOCACHE;
      }
      RemovedAt(list, ops, i);
      ghost var l := list;
      NodesAreDistinct(l);
      WithoutKeeps(l, ops);
      if prev == null {
        head := t.next;
      } else {
        prev.next := t.next;
      }
      list := l[..i] + l[i + 1..];
      assert forall j {:trigger list[j].next} :: 0 <= j < |list| ==>
               var k := if j < i then j else j + 1; list[j] == l[k] && (k != i - 1 ==> l[k].next == old(l[k].next));
      return 0;
    }
  }

  lemma NodesAreDistinct(l: seq<CacheOps>)
    requires DistinctNames(l)
    ensures forall i, j :: 0 <= i < j < |l| ==> l[i] != l[j]
  {
  }

  lemma {:induction false} NothingRemoved(l: seq<CacheOps>, ops: CacheOps)
    requires ops !in l
    ensures Without(l, ops) == l
  {
    if l != [] {
      NothingRemoved(l[1..], ops);
    }
  }

  lemma {:induction false} RemovedAt(l: seq<CacheOps>, ops: CacheOps, i: nat)
    requires i < |l| && l[i] == ops && ops !in l[..i]
    ensures Without(l, ops) == l[..i] + l[i + 1..]
  {
    if i > 0 {
      assert l[0] in l[..i];
      assert l[1..][..i - 1] == l[..i][1..];
      RemovedAt(l[1..], ops, i - 1);
    }
  }

  // ---------------------------------------------------------------- every run

  datatype Call = Reg(ops: CacheOps) | Unreg(ops: CacheOps)

  ghost function Run(l: seq<CacheOps>, calls: seq<Call>): seq<CacheOps>
    decreases |calls|
  {
    if calls == [] then l
    else
      var l' := match calls[0] case Reg(o) => Registered(l, o) case Unreg(o) => Without(l, o);
      Run(l', calls[1..])
  }

  lemma {:induction false} WithoutKeeps(l: seq<CacheOps>, ops: CacheOps)
    requires DistinctNames(l)
    ensures DistinctNames(Without(l, ops))
    ensures forall o :: o in Without(l, ops) <==> o in l && o != ops
  {
    if ops in l {
      var i :| 0 <= i < |l| && l[i] == ops;
      RemovedAt(l, ops, i);
    } else {
      NothingRemoved(l, ops);
    }
  }

  /** Names stay pairwise distinct, so the list stays acyclic, whatever is registered or unregistered. */
  lemma {:induction false} RunKeepsNamesDistinct(l: seq<CacheOps>, calls: seq<Call>)
    requires DistinctNames(l)
    ensures DistinctNames(Run(l, calls))
    decreases |calls|
  {
    if calls != [] {
      match calls[0] {
        case Reg(o) => RunKeepsNamesDistinct(Registered(l, o), calls[1..]);
        case Unreg(o) => WithoutKeeps(l, o); RunKeepsNamesDistinct(Without(l, o), calls[1..]);
      }
    }
  }

  /** The registry as an abstract map from names. */
  ghost function MapOf(l: seq<CacheOps>): map<string, CacheOps>
    requires DistinctNames(l)
  {
    map i | 0 <= i < |l| :: l[i].name.value := l[i]
  }

  ghost function RunMap(m: map<string, CacheOps>, calls: seq<Call>): map<string, CacheOps>
    decreases |calls|
  {
    if calls == [] then m
    else
      var m' := match calls[0]
                case Reg(o) => if Registrable(o) && o.name.value !in m then m[o.name.value := o] else m
                case Unreg(o) => if o.name.Some? && o.name.value in m && m[o.name.value] == o then m - {o.name.value} else m;
      RunMap(m', calls[1..])
  }

  /** On any run the list and the abstract map stay in step. */
  lemma {:induction false} RunAgreesWithMap(l: seq<CacheOps>, calls: seq<Call>)
    requires DistinctNames(l)
    ensures DistinctNames(Run(l, calls)) && MapOf(Run(l, calls)) == RunMap(MapOf(l), calls)
    decreases |calls|
  {
    if calls != [] {
      match calls[0] {
        case Reg(o) =>
          RegisteredMap(l, o);
          RunAgreesWithMap(Registered(l, o), calls[1..]);
        case Unreg(o) =>
          WithoutKeeps(l, o);
          WithoutMap(l, o);
          RunAgreesWithMap(Without(l, o), calls[1..]);
      }
    }
  }

  lemma MapLookup(l: seq<CacheOps>)
    requires DistinctNames(l)
    ensures forall n :: n in MapOf(l) <==> HasName(l, Some(n))
    ensures forall i :: 0 <= i < |l| ==> l[i].name.value in MapOf(l) && MapOf(l)[l[i].name.value] == l[i]
    ensures forall n :: n in MapOf(l) ==> MapOf(l)[n] in l && MapOf(l)[n].name == Some(n)
  {
  }

  lemma SameMap(l: seq<CacheOps>, m: map<string, CacheOps>)
    requires DistinctNames(l)
    requires forall o :: o in l <==> exists n :: n in m && m[n] == o
    requires forall n :: n in m ==> m[n].name == Some(n)
    ensures MapOf(l) == m
  {
    MapLookup(l);
    forall n
      ensures n in MapOf(l) <==> n in m
      ensures n in m ==> n in MapOf(l) && MapOf(l)[n] == m[n]
    {
      if n in m {
        assert m[n] in l;
      }
      if n in MapOf(l) {
        assert MapOf(l)[n] in l;
      }
    }
  }

  lemma RegisteredMap(l: seq<CacheOps>, o: CacheOps)
    requires DistinctNames(l)
    ensures DistinctNames(Registered(l, o))
    ensures MapOf(Registered(l, o)) ==
            if Registrable(o) && o.name.value !in MapOf(l) then MapOf(l)[o.name.value := o] else MapOf(l)
  {
    hide MapOf;
    MapLookup(l);
    if Registrable(o) && !HasName(l, o.name) {
      var m := MapOf(l)[o.name.value := o];
      assert forall p :: p in l ==> m[p.name.value] == p;
      assert m[o.name.value] == o;
      SameMap([o] + l, m);
    }
  }

  lemma WithoutMap(l: seq<CacheOps>, o: CacheOps)
    requires DistinctNames(l) && DistinctNames(Without(l, o))
    ensures MapOf(Without(l, o)) ==
            if o.name.Some? && o.name.value in MapOf(l) && MapOf(l)[o.name.value] == o
            then MapOf(l) - {o.name.value} else MapOf(l)
  {
    hide MapOf, Without;
    MapLookup(l);
    WithoutKeeps(l, o);
    if o in l {
      var m := MapOf(l) - {o.name.value};
      assert forall p :: p in l && p != o ==> p.name != o.name && p.name.value in m && m[p.name.value] == p;
      SameMap(Without(l, o), m);
    } else {
      assert forall p :: p in l ==> p.name.value in MapOf(l) && MapOf(l)[p.name.value] == p;
      SameMap(Without(l, o), MapOf(l));
    }
  }

  /** Registering and unregistering again restores the list. */
  lemma RegisterThenUnregister(l: seq<CacheOps>, o: CacheOps)
    requires Registrable(o) && !HasName(l, o.name)
    ensures Without(Registered(l, o), o) == l
  {
  }
}
