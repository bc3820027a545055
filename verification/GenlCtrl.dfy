/**
 The generic netlink controller (wifi/libnl-tiny/genl_ctrl.c): families parsed from a dump into a cache,
 and names resolved through it.  What the socket delivers is a parameter.
 */
module GenlCtrl {
  import opened CNumbers
  import opened ObjectCache
  import opened ObjectLists
  import opened Options

  const NLE_OBJ_NOTFOUND := 12
  const NLE_MISSING_ATTR := 14
  const GENL_NAMSIZ := 16

  /** The object type of `genl_family_ops`, which `genl_ctrl_ops` names. */
  const FAMILY_OPS := 1

  datatype Result<+T> = Ok(value: T) | Error(code: int)

  type uint32 = n: nat | n < TWO32

  /** A nested operation or group, after `nla_parse_nested` into its table. */
  datatype OpAttr = OpAttr(parsed: int, id: Option<uint32>, flags: Option<uint32>)

  datatype GrpAttr = GrpAttr(parsed: int, id: Option<uint32>, name: Option<string>)

  /** A family message, after `nla_parse` into its table. */
  datatype CtrlMsg = CtrlMsg(name: Option<string>, id: Option<nat>, version: Option<uint32>, hdrsize: Option<uint32>,
                             maxattr: Option<uint32>, opers: seq<OpAttr>, grps: seq<GrpAttr>)

  /** What `strncpy` keeps of a name in a zeroed array of GENL_NAMSIZ bytes. */
  function Stored(name: string): string {
    if |name| < GENL_NAMSIZ then name else name[..GENL_NAMSIZ - 1]
  }

  // ---------------------------------------------------------------- what a message means

  function OpersOf(s: seq<OpAttr>): Result<seq<(nat, nat)>> {
    if s == [] then Ok([])
    else if s[0].parsed < 0 then Error(s[0].parsed)
    else if s[0].id.None? then Error(-NLE_MISSING_ATTR)
    else
      match OpersOf(s[1..])
      case Error(e) => Error(e)
      case Ok(rest) => Ok([(s[0].id.value, if s[0].flags.Some? then s[0].flags.value else 0)] + rest)
  }

  function GroupsOf(s: seq<GrpAttr>): Result<seq<(string, nat)>> {
    if s == [] then Ok([])
    else if s[0].parsed < 0 then Error(s[0].parsed)
    else if s[0].id.None? || s[0].name.None? then Error(-NLE_MISSING_ATTR)
    else
      match GroupsOf(s[1..])
      case Error(e) => Error(e)
      case Ok(rest) => Ok([(Stored(s[0].name.value), s[0].id.value)] + rest)
  }

  /** The bits that the setters mark. */
  function MaskOf(m: CtrlMsg): set<FamilyAttr> {
    {HasId, HasName} + (if m.version.Some? then {HasVersion} else {}) + (if m.hdrsize.Some? then {HasHdrsize} else {})
    + (if m.maxattr.Some? then {HasMaxattr} else {}) + (if m.opers != [] then {HasOps} else {})
  }

  /** The family a message describes, or the error of its first defect. */
  function FamilyOf(m: CtrlMsg): Result<Family> {
    if m.name.None? || m.id.None? then Error(-NLE_MISSING_ATTR)
    else
      match OpersOf(m.opers)
      case Error(e) => Error(e)
      case Ok(opers) =>
        match GroupsOf(m.grps)
        case Error(e) => Error(e)
        case Ok(groups) =>
          Ok(Family(MaskOf(m), m.id.value % 0x1_0000, Stored(m.name.value),
                    if m.version.Some? then m.version.value % 256 else 0,
                    if m.hdrsize.Some? then m.hdrsize.value else 0,
                    if m.maxattr.Some? then m.maxattr.value else 0, opers, groups))
  }

  /** Nothing that is needed is missing from a message, and nothing in it is malformed. */
  predicate Complete(m: CtrlMsg) {
    && m.name.Some? && m.id.Some?
    && (forall i :: 0 <= i < |m.opers| ==> m.opers[i].parsed >= 0 && m.opers[i].id.Some?)
    && (forall i :: 0 <= i < |m.grps| ==> m.grps[i].parsed >= 0 && m.grps[i].id.Some? && m.grps[i].name.Some?)
  }

  /** A name as far as it is stored: at most fifteen characters. */
  function FirstFifteen(name: string): string {
    if |name| <= 15 then name else name[..15]
  }

  /** The number of an attribute, or zero where there is none. */
  function OrZero(o: Option<uint32>): nat {
    if o.Some? then o.value else 0
  }

  /** The family has the numbers and names of the message, and marks what the message gives. */
  ghost predicate Holds(f: Family, m: CtrlMsg)
    requires Complete(m)
  {
    && f.id == m.id.value % 65536 && f.name == FirstFifteen(m.name.value)
    && f.version == OrZero(m.version) % 256 && f.hdrsize == OrZero(m.hdrsize) && f.maxattr == OrZero(m.maxattr)
    && HasId in f.mask && HasName in f.mask && (HasVersion in f.mask <==> m.version.Some?)
    && (HasHdrsize in f.mask <==> m.hdrsize.Some?) && (HasMaxattr in f.mask <==> m.maxattr.Some?)
    && (HasOps in f.mask <==> m.opers != [])
    && |f.opers| == |m.opers|
    && (forall i :: 0 <= i < |m.opers| ==> f.opers[i] == (m.opers[i].id.value, OrZero(m.opers[i].flags)))
    && |f.groups| == |m.grps|
    && (forall i :: 0 <= i < |m.grps| ==> f.groups[i] == (FirstFifteen(m.grps[i].name.value), m.grps[i].id.value))
  }

  lemma {:induction false} OpersHold(s: seq<OpAttr>)
    ensures OpersOf(s).Ok? <==> forall i :: 0 <= i < |s| ==> s[i].parsed >= 0 && s[i].id.Some?
    ensures OpersOf(s).Ok? ==>
              |OpersOf(s).value| == |s|
              && forall i :: 0 <= i < |s| ==> OpersOf(s).value[i] == (s[i].id.value, OrZero(s[i].flags))
  {
    if s != [] {
      OpersHold(s[1..]);
      assert forall i :: 0 < i < |s| ==> s[i] == s[1..][i - 1];
      assert forall i :: 0 <= i < |s[1..]| ==> s[1..][i] == s[i + 1];
    }
  }

  lemma {:induction false} GroupsHold(s: seq<GrpAttr>)
    ensures GroupsOf(s).Ok? <==> forall i :: 0 <= i < |s| ==> s[i].parsed >= 0 && s[i].id.Some? && s[i].name.Some?
    ensures GroupsOf(s).Ok? ==>
              |GroupsOf(s).value| == |s|
              && forall i :: 0 <= i < |s| ==> GroupsOf(s).value[i] == (FirstFifteen(s[i].name.value), s[i].id.value)
  {
    if s != [] {
      GroupsHold(s[1..]);
      assert forall i :: 0 < i < |s| ==> s[i] == s[1..][i - 1];
      assert forall i :: 0 <= i < |s[1..]| ==> s[1..][i] == s[i + 1];
    }
  }

  /** A family is made of a message exactly when the message is complete, and holds it field by field. */
  lemma FamilyHoldsMessage(m: CtrlMsg)
    ensures FamilyOf(m).Ok? <==> Complete(m)
    ensures Complete(m) ==> Holds(FamilyOf(m).value, m)
  {
    OpersHold(m.opers);
    GroupsHold(m.grps);
    hide OpersOf, GroupsOf, FirstFifteen;
    if m.name.Some? {
      assert Stored(m.name.value) == FirstFifteen(m.name.value) by {
        StoredIs(m.name.value);
      }
    }
  }

  lemma StoredIs(name: string)
    ensures Stored(name) == FirstFifteen(name)
  {
  }

  /** The error of the first operation that is malformed, or has no identifier. */
  lemma {:induction false} OperDefect(s: seq<OpAttr>, i: nat)
    requires i < |s| && forall j :: 0 <= j < i ==> s[j].parsed >= 0 && s[j].id.Some?
    requires s[i].parsed < 0 || s[i].id.None?
    ensures OpersOf(s) == Error(if s[i].parsed < 0 then s[i].parsed else -14)
  {
    if i > 0 {
      assert forall j :: 0 <= j < |s[1..]| ==> s[1..][j] == s[j + 1];
      OperDefect(s[1..], i - 1);
    }
  }

  lemma {:induction false} GroupDefect(s: seq<GrpAttr>, i: nat)
    requires i < |s| && forall j :: 0 <= j < i ==> s[j].parsed >= 0 && s[j].id.Some? && s[j].name.Some?
    requires s[i].parsed < 0 || s[i].id.None? || s[i].name.None?
    ensures GroupsOf(s) == Error(if s[i].parsed < 0 then s[i].parsed else -14)
  {
    if i > 0 {
      assert forall j :: 0 <= j < |s[1..]| ==> s[1..][j] == s[j + 1];
      GroupDefect(s[1..], i - 1);
    }
  }

  /** A message without a name or an identifier is refused with -14; then its operations are read before its groups. */
  lemma FirstDefect(m: CtrlMsg)
    ensures m.name.None? || m.id.None? ==> FamilyOf(m) == Error(-14)
    ensures m.name.Some? && m.id.Some? && OpersOf(m.opers).Error? ==> FamilyOf(m) == Error(OpersOf(m.opers).code)
    ensures m.name.Some? && m.id.Some? && OpersOf(m.opers).Ok? && GroupsOf(m.grps).Error? ==>
              FamilyOf(m) == Error(GroupsOf(m.grps).code)
  {
  }

  /** Parse errors are negative. */
  ghost predicate WellFormed(m: CtrlMsg) {
    && (forall i :: 0 <= i < |m.opers| ==> m.opers[i].parsed <= 0)
    && (forall i :: 0 <= i < |m.grps| ==> m.grps[i].parsed <= 0)
  }

  lemma {:induction false} ErrorsAreNegative(m: CtrlMsg)
    requires WellFormed(m)
    ensures FamilyOf(m).Error? ==> FamilyOf(m).code < 0
  {
    OpErrorsAreNegative(m.opers);
    GrpErrorsAreNegative(m.grps);
  }

  lemma {:induction false} OpErrorsAreNegative(s: seq<OpAttr>)
    requires forall i :: 0 <= i < |s| ==> s[i].parsed <= 0
    ensures OpersOf(s).Error? ==> OpersOf(s).code < 0
  {
    if s != [] {
      OpErrorsAreNegative(s[1..]);
    }
  }

  lemma {:induction false} GrpErrorsAreNegative(s: seq<GrpAttr>)
    requires forall i :: 0 <= i < |s| ==> s[i].parsed <= 0
    ensures GroupsOf(s).Error? ==> GroupsOf(s).code < 0
  {
    if s != [] {
      GrpErrorsAreNegative(s[1..]);
    }
  }

  // ---------------------------------------------------------------- the message parser

  /** The result of a loop that has collected `done` and has `rest` ahead. */
  function After<T>(done: seq<T>, rest: Result<seq<T>>): Result<seq<T>> {
    match rest
    case Error(e) => Error(e)
    case Ok(more) => Ok(done + more)
  }

  lemma AfterNothing<T>(rest: Result<seq<T>>)
    ensures After([], rest) == rest
  {
    if rest.Ok? {
      assert [] + rest.value == rest.value;
    }
  }

  lemma AfterOneMore<T>(done: seq<T>, x: T, rest: Result<seq<T>>)
    ensures After(done, After([x], rest)) == After(done + [x], rest)
  {
    if rest.Ok? {
      assert done + ([x] + rest.value) == done + [x] + rest.value;
    }
  }

  /** The loop over CTRL_ATTR_OPS. */
  method ParseOpers(s: seq<OpAttr>) returns (err: int, opers: seq<(nat, nat)>)
    requires forall i :: 0 <= i < |s| ==> s[i].parsed <= 0
    ensures OpersOf(s) == if err < 0 then Error(err) else Ok(opers)
    ensures err <= 0
  {
    err, opers := 0, [];
    var i := 0;
    assert s[0..] == s;
    AfterNothing(OpersOf(s));
    while i < |s|
      invariant 0 <= i <= |s|
      invariant OpersOf(s) == After(opers, OpersOf(s[i..]))
    {
      assert s[i..][1..] == s[i + 1..];
      err := s[i].parsed;
      if err < 0 {
        return;
      }
      if s[i].id.None? {
        err := -NLE_MISSING_ATTR;
        return;
      }
      var flags := if s[i].flags.Some? then s[i].flags.value else 0;
      AfterOneMore(opers, (s[i].id.value, flags), OpersOf(s[i + 1..]));
      opers := opers + [(s[i].id.value, flags)];
      i := i + 1;
    }
    assert s[i..] == [] && opers + [] == opers;
    err := 0;
  }

  /** The loop over CTRL_ATTR_MCAST_GROUPS. */
  method ParseGroups(s: seq<GrpAttr>) returns (err: int, groups: seq<(string, nat)>)
    requires forall i :: 0 <= i < |s| ==> s[i].parsed <= 0
    ensures GroupsOf(s) == if err < 0 then Error(err) else Ok(groups)
    ensures err <= 0
  {
    err, groups := 0, [];
    var i := 0;
    assert s[0..] == s;
    AfterNothing(GroupsOf(s));
    while i < |s|
      invariant 0 <= i <= |s|
      invariant GroupsOf(s) == After(groups, GroupsOf(s[i..]))
    {
      assert s[i..][1..] == s[i + 1..];
      err := s[i].parsed;
      if err < 0 {
        return;
      }
      if s[i].id.None? {
        err := -NLE_MISSING_ATTR;
        return;
      }
      if s[i].name.None? {
        err := -NLE_MISSING_ATTR;
        return;
      }
      AfterOneMore(groups, (Stored(s[i].name.value), s[i].id.value), GroupsOf(s[i + 1..]));
      groups := groups + [(Stored(s[i].name.value), s[i].id.value)];
      i := i + 1;
    }
    assert s[i..] == [] && groups + [] == groups;
    err := 0;
  }

  /** The references other callers hold are as they were, and nobody holds what is new. */
  twostate predicate OnlyTheCacheHolds(st: Store)
    reads st
  {
    && st.holders.Keys == st.objects && old(st.holders.Keys) == old(st.objects)
    && old(st.objects) <= st.objects
    && forall o :: o in st.objects ==> st.holders[o] == if o in old(st.objects) then old(st.holders[o]) else 0
  }

  /**
   `ctrl_msg_parser` with the callback `pickup_cb`, which is `nl_cache_add`.  The reference from the
   allocation is given up on every path: what is cached is held by the cache alone, and what is not
   cached is freed.
   */
  method CtrlMsgParser(st: Store, c: NlCache, m: CtrlMsg) returns (err: int)
    requires st.Valid() && c in st.caches && !c.freed && WellFormed(m)
    modifies st, c`items, c`next, c`prev, c`nitems, (set o | o in c.items)`next
    ensures st.Valid() && st.caches == old(st.caches) && OnlyTheCacheHolds(st)
    ensures forall o :: o in st.objects && o !in old(st.objects) ==> fresh(o)
    ensures FamilyOf(m).Ok? && c.ops == FAMILY_OPS ==>
              && err == 0 && |c.items| == |old(c.items)| + 1 && c.items[..|old(c.items)|] == old(c.items)
              && var n := c.items[|old(c.items)|];
                 fresh(n) && n.data == FamilyOf(m).value && st.objects == old(st.objects) + {n}
    ensures FamilyOf(m).Ok? && c.ops == FAMILY_OPS ==> Complete(m) && Holds(c.items[|old(c.items)|].data, m)
    ensures FamilyOf(m).Error? || c.ops != FAMILY_OPS ==>
              && c.items == old(c.items)
              && err == (if FamilyOf(m).Error? then FamilyOf(m).code else -23) < 0
              && forall o :: o in st.objects && o !in old(st.objects) ==> o.freed
  {
    hide FamilyOf, WellFormed, Store.Valid, Complete, Holds;
    st.EveryObjectIsCounted();
    FamilyHoldsMessage(m);
    var family := st.Alloc(FAMILY_OPS, NO_FAMILY);
    ErrorsAreNegative(m);
    err := FillAndAdd(st, c, family, m);
    st.Put(family);
  }

  lemma Components(m: CtrlMsg)
    requires WellFormed(m)
    ensures forall i :: 0 <= i < |m.opers| ==> m.opers[i].parsed <= 0
    ensures forall i :: 0 <= i < |m.grps| ==> m.grps[i].parsed <= 0
  {
  }

  /** Everything between the allocation and the `errout` label. */
  method FillAndAdd(st: Store, c: NlCache, family: NlObject, m: CtrlMsg) returns (err: int)
    requires st.Valid() && c in st.caches && !c.freed && WellFormed(m)
    requires family in st.objects && !family.freed && family.cache == null && family.ListEmpty()
    requires family.ops == FAMILY_OPS
    modifies st, c`items, c`next, c`prev, c`nitems, family, (set o | o in c.items)`next
    ensures st.Valid() && st.caches == old(st.caches) && st.objects == old(st.objects) && st.holders == old(st.holders)
    ensures !family.freed
    ensures FamilyOf(m).Ok? && c.ops == FAMILY_OPS ==>
              err == 0 && c.items == old(c.items) + [family] && family.data == FamilyOf(m).value && family.cache == c
    ensures FamilyOf(m).Error? || c.ops != FAMILY_OPS ==>
              && c.items == old(c.items) && family.cache == null
              && err == (if FamilyOf(m).Error? then FamilyOf(m).code else -23)
  {
    hide OpersOf, GroupsOf, Stored, WellFormed;
    Components(m);
    if m.name.None? {
      return -NLE_MISSING_ATTR;
    }
    if m.id.None? {
      return -NLE_MISSING_ATTR;
    }
    var mask := {HasId, HasName};
    var version, hdrsize, maxattr := 0, 0, 0;
    if m.version.Some? {
      version, mask := m.version.value % 256, mask + {HasVersion};
    }
    if m.hdrsize.Some? {
      hdrsize, mask := m.hdrsize.value, mask + {HasHdrsize};
    }
    if m.maxattr.Some? {
      maxattr, mask := m.maxattr.value, mask + {HasMaxattr};
    }
    var opers, groups;
    err, opers := ParseOpers(m.opers);
    if err < 0 {
      return;
    }
    if m.opers != [] {
      mask := mask + {HasOps};
    }
    err, groups := ParseGroups(m.grps);
    if err < 0 {
      return;
    }
    assert mask == MaskOf(m);
    st.SetData(family, Family(mask, m.id.value % 0x1_0000, Stored(m.name.value), version, hdrsize, maxattr, opers, groups));
    ghost var n;
    err, n := st.Add(c, family);
  }

  // ---------------------------------------------------------------- searching

  /** The first family of a list with a name. */
  function FirstNamed(fams: seq<Family>, name: string): Option<Family> {
    if fams == [] then None else if fams[0].name == name then Some(fams[0]) else FirstNamed(fams[1..], name)
  }

  /** The first family of a list with an identifier. */
  function FirstWithId(fams: seq<Family>, id: nat): Option<Family> {
    if fams == [] then None else if fams[0].id == id then Some(fams[0]) else FirstWithId(fams[1..], id)
  }

  /** What is found is in the list, and nothing before it has the name; what is not found is nowhere. */
  lemma {:induction false} FirstNamedIs(fams: seq<Family>, name: string)
    ensures FirstNamed(fams, name).None? <==> forall i :: 0 <= i < |fams| ==> fams[i].name != name
    ensures FirstNamed(fams, name).Some? ==>
              exists k :: 0 <= k < |fams| && fams[k] == FirstNamed(fams, name).value && fams[k].name == name
                && forall i :: 0 <= i < k ==> fams[i].name != name
  {
    if fams != [] && fams[0].name != name {
      FirstNamedIs(fams[1..], name);
      assert fams == [fams[0]] + fams[1..];
    }
  }

  /** The same for identifiers. */
  lemma {:induction false} FirstWithIdIs(fams: seq<Family>, id: nat)
    ensures FirstWithId(fams, id).None? <==> forall i :: 0 <= i < |fams| ==> fams[i].id != id
    ensures FirstWithId(fams, id).Some? ==>
              exists k :: 0 <= k < |fams| && fams[k] == FirstWithId(fams, id).value && fams[k].id == id
                && forall i :: 0 <= i < k ==> fams[i].id != id
  {
    if fams != [] && fams[0].id != id {
      FirstWithIdIs(fams[1..], id);
      assert fams == [fams[0]] + fams[1..];
    }
  }

  ghost function DataOf(items: seq<NlObject>): (r: seq<Family>)
    reads items
    ensures |r| == |items| && forall i :: 0 <= i < |items| ==> r[i] == items[i].data
  {
    if items == [] then [] else [items[0].data] + DataOf(items[1..])
  }

  lemma DataTail(items: seq<NlObject>, i: nat)
    requires i < |items|
    ensures DataOf(items[i..]) == [items[i].data] + DataOf(items[i + 1..])
  {
    assert items[i..][1..] == items[i + 1..];
  }

  /** The loop of `genl_ctrl_search_by_name`. */
  method FindByName(st: Store, c: NlCache, name: string) returns (fam: NlObject?)
    requires st.Valid() && c in st.caches
    ensures fam == null ==> FirstNamed(DataOf(c.items), name).None?
    ensures fam != null ==> fam in c.items && FirstNamed(DataOf(c.items), name) == Some(fam.data)
  {
    hide Store.Valid;
    st.FirstLinks(c);
    ghost var i := 0;
    assert c.items[0..] == c.items;
    var pos := c.next;
    while pos != Head(c)
      invariant 0 <= i <= |c.items| && pos == c.At(c.items, i)
      invariant FirstNamed(DataOf(c.items), name) == FirstNamed(DataOf(c.items[i..]), name)
      decreases |c.items| - i
    {
      fam := pos.o;
      DataTail(c.items, i);
      assert DataOf(c.items[i..])[1..] == DataOf(c.items[i + 1..]);
      if name == fam.data.name {
        return fam;
      }
      pos := Next(pos);
      i := i + 1;
    }
    return null;
  }

  /** `genl_ctrl_search_by_name`: the object found is returned with a reference for the caller. */
  method SearchByName(st: Store, c: NlCache, name: string) returns (fam: NlObject?)
    requires st.Valid() && c in st.caches
    modifies st`holders, (set o | o in c.items)`refcnt
    ensures st.Valid()
    ensures fam == null ==> old(FirstNamed(DataOf(c.items), name)).None? && st.holders == old(st.holders)
    ensures fam != null ==>
              && old(FirstNamed(DataOf(c.items), name)) == Some(fam.data) && fam in c.items
              && fam in st.objects && fam.cache != null && !fam.freed && st.Held(fam)
              && st.holders == old(st.holders)[fam := old(st.holders)[fam] + 1]
  {
    hide Store.Valid, FirstNamed, DataOf;
    st.FirstLinks(c);
    fam := FindByName(st, c, name);
    if fam != null {
      st.Get(fam);
    }
  }

  /** The loop of `genl_ctrl_search`. */
  method FindById(st: Store, c: NlCache, id: nat) returns (fam: NlObject?)
    requires st.Valid() && c in st.caches
    ensures fam == null ==> FirstWithId(DataOf(c.items), id).None?
    ensures fam != null ==> fam in c.items && FirstWithId(DataOf(c.items), id) == Some(fam.data)
  {
    hide Store.Valid;
    st.FirstLinks(c);
    ghost var i := 0;
    assert c.items[0..] == c.items;
    var pos := c.next;
    while pos != Head(c)
      invariant 0 <= i <= |c.items| && pos == c.At(c.items, i)
      invariant FirstWithId(DataOf(c.items), id) == FirstWithId(DataOf(c.items[i..]), id)
      decreases |c.items| - i
    {
      fam := pos.o;
      DataTail(c.items, i);
      assert DataOf(c.items[i..])[1..] == DataOf(c.items[i + 1..]);
      if fam.data.id == id {
        return fam;
      }
      pos := Next(pos);
      i := i + 1;
    }
    return null;
  }

  /** `genl_ctrl_search`: the object found is returned with a reference for the caller. */
  method Search(st: Store, c: NlCache, id: nat) returns (fam: NlObject?)
    requires st.Valid() && c in st.caches
    modifies st`holders, (set o | o in c.items)`refcnt
    ensures st.Valid()
    ensures fam == null ==> old(FirstWithId(DataOf(c.items), id)).None? && st.holders == old(st.holders)
    ensures fam != null ==>
              && old(FirstWithId(DataOf(c.items), id)) == Some(fam.data) && fam in c.items
              && fam in st.objects && fam.cache != null && !fam.freed && st.Held(fam)
              && st.holders == old(st.holders)[fam := old(st.holders)[fam] + 1]
  {
    hide Store.Valid, FirstWithId, DataOf;
    st.FirstLinks(c);
    fam := FindById(st, c, id);
    if fam != null {
      st.Get(fam);
    }
  }

  // ---------------------------------------------------------------- resolving

  /** What a dump request meets: it is refused, or messages arrive and reception ends with a result. */
  datatype Dump = Refused(err: int) | Received(msgs: seq<CtrlMsg>, result: int)

  ghost predicate WellFormedDump(d: Dump) {
    match d
    case Refused(err) => err < 0
    case Received(msgs, result) => result <= 0 && forall i :: 0 <= i < |msgs| ==> WellFormed(msgs[i])
  }

  /** The families of the messages before the first that does not parse. */
  function FamiliesBefore(msgs: seq<CtrlMsg>): seq<Family> {
    if msgs == [] || FamilyOf(msgs[0]).Error? then [] else [FamilyOf(msgs[0]).value] + FamiliesBefore(msgs[1..])
  }

  /** The error of the first message that does not parse, or the result of the reception. */
  function ReceptionResult(msgs: seq<CtrlMsg>, result: int): int {
    if msgs == [] then result
    else if FamilyOf(msgs[0]).Error? then FamilyOf(msgs[0]).code
    else ReceptionResult(msgs[1..], result)
  }

  function DumpResult(d: Dump): int {
    match d
    case Refused(err) => err
    case Received(msgs, result) => ReceptionResult(msgs, result)
  }

  /** Everything new since the call is freed, or held by `c` alone. */
  twostate predicate NewOnlyIn(st: Store, new c: NlCache)
    reads st, st.objects, c
  {
    forall o :: o in st.objects && o !in old(st.objects) ==> fresh(o) && (o.freed || o in c.items)
  }

  /** `nl_cache_pickup`: each message goes through the parser; an error ends the reception. */
  method Pickup(st: Store, c: NlCache, msgs: seq<CtrlMsg>, result: int) returns (err: int)
    requires st.Valid() && c in st.caches && !c.freed && c.ops == FAMILY_OPS && c.items == []
    requires result <= 0 && forall i :: 0 <= i < |msgs| ==> WellFormed(msgs[i])
    modifies st, c`items, c`next, c`prev, c`nitems
    ensures st.Valid() && st.caches == old(st.caches) && OnlyTheCacheHolds(st) && NewOnlyIn(st, c)
    ensures err == ReceptionResult(msgs, result) <= 0
    ensures DataOf(c.items) == FamiliesBefore(msgs)
    ensures forall o :: o in c.items ==> fresh(o)
  {
    hide FamilyOf, WellFormed, Store.Valid, DataOf, FamiliesBefore, ReceptionResult;
    var i := 0;
    ghost var done: seq<Family> := [];
    assert msgs[0..] == msgs;
    st.EveryObjectIsCounted();
    assert DataOf(c.items) == [];
    assert [] + FamiliesBefore(msgs) == FamiliesBefore(msgs);
    while i < |msgs|
      invariant 0 <= i <= |msgs|
      invariant st.Valid() && st.caches == old(st.caches) && OnlyTheCacheHolds(st) && NewOnlyIn(st, c)
      invariant forall o :: o in c.items ==> fresh(o)
      invariant DataOf(c.items) == done && FamiliesBefore(msgs) == done + FamiliesBefore(msgs[i..])
      invariant ReceptionResult(msgs, result) == ReceptionResult(msgs[i..], result)
    {
      ReceptionStep(msgs, i, result, done);
      ghost var before := c.items;
      err := CtrlMsgParser(st, c, msgs[i]);
      if err < 0 {
        return;
      }
      assert c.items == before + [c.items[|before|]];
      DataAppended(before, c.items);
      done := done + [FamilyOf(msgs[i]).value];
      i := i + 1;
    }
    ReceptionEnd(msgs[i..], result);
    assert done + [] == done;
    return result;
  }

  lemma ReceptionStep(msgs: seq<CtrlMsg>, i: nat, result: int, done: seq<Family>)
    requires i < |msgs|
    ensures var f := FamilyOf(msgs[i]);
            if f.Error? then
              FamiliesBefore(msgs[i..]) == [] && done + FamiliesBefore(msgs[i..]) == done &&
              ReceptionResult(msgs[i..], result) == f.code
            else
              done + FamiliesBefore(msgs[i..]) == done + [f.value] + FamiliesBefore(msgs[i + 1..]) &&
              ReceptionResult(msgs[i..], result) == ReceptionResult(msgs[i + 1..], result)
  {
    hide FamilyOf;
    assert msgs[i..][1..] == msgs[i + 1..];
    if FamilyOf(msgs[i]).Ok? {
      assert done + ([FamilyOf(msgs[i]).value] + FamiliesBefore(msgs[i + 1..]))
          == done + [FamilyOf(msgs[i]).value] + FamiliesBefore(msgs[i + 1..]);
    }
  }

  lemma ReceptionEnd(msgs: seq<CtrlMsg>, result: int)
    requires msgs == []
    ensures FamiliesBefore(msgs) == [] && ReceptionResult(msgs, result) == result
  {
  }

  lemma DataAppended(before: seq<NlObject>, after: seq<NlObject>)
    requires |after| == |before| + 1 && after[..|before|] == before
    ensures DataOf(after) == DataOf(before) + [after[|before|].data]
  {
    assert forall i :: 0 <= i < |before| ==> after[i] == before[i];
  }

  /** `nl_cache_refill`: a request that is refused changes nothing; otherwise the cache is cleared first. */
  method Refill(st: Store, c: NlCache, d: Dump) returns (err: int)
    requires st.Valid() && c in st.caches && !c.freed && c.ops == FAMILY_OPS && WellFormedDump(d)
    modifies st, c, (set o | o in c.items)`cache, (set o | o in c.items)`refcnt
    modifies (set o | o in c.items)`freed, (set o | o in c.items)`next, (set o | o in c.items)`prev
    ensures c.freed == old(c.freed)
    ensures st.Valid() && st.caches == old(st.caches) && OnlyTheCacheHolds(st) && NewOnlyIn(st, c)
    ensures err == DumpResult(d) <= 0
    ensures d.Refused? ==> c.items == old(c.items) && forall o :: o in c.items ==> o.freed == old(o.freed)
    ensures d.Received? ==> DataOf(c.items) == FamiliesBefore(d.msgs) && forall o :: o in c.items ==> fresh(o)
    ensures d.Received? ==>
              forall o :: o in old(c.items) ==> o.cache == null && o in st.holders && (o.freed <==> st.holders[o] == 0)
  {
    hide WellFormed, FamilyOf, Store.Valid, DataOf;
    st.EveryObjectIsCounted();
    match d {
      case Refused(e) =>
        return e;
      case Received(msgs, result) =>
        st.ItemsAreLive(c);
        st.Clear(c);
        st.EveryObjectIsCounted();
        err := Pickup(st, c, msgs, result);
    }
  }

  /** The identifier `genl_ctrl_resolve` finds for a name, or the error it reports. */
  function Resolved(d: Dump, name: string): int {
    match d
    case Refused(err) => err
    case Received(msgs, result) =>
      if ReceptionResult(msgs, result) < 0 then ReceptionResult(msgs, result)
      else
        match FirstNamed(FamiliesBefore(msgs), name)
        case None => -NLE_OBJ_NOTFOUND
        case Some(f) => GetId(f)
  }

  /** The identifier of a family that was received is marked as set, so that it is the one in the message. */
  lemma {:induction false} ReceivedIdIsSet(msgs: seq<CtrlMsg>, name: string)
    ensures var f := FirstNamed(FamiliesBefore(msgs), name); f.Some? ==> GetId(f.value) == f.value.id
  {
    hide OpersOf, GroupsOf, Stored;
    if msgs != [] && FamilyOf(msgs[0]).Ok? {
      ReceivedIdIsSet(msgs[1..], name);
      var f := FamilyOf(msgs[0]).value;
      assert HasId in f.mask;
      assert ([f] + FamiliesBefore(msgs[1..]))[1..] == FamiliesBefore(msgs[1..]);
    }
  }

  /** The first message with that name, as far as names are stored. */
  function FirstMessage(msgs: seq<CtrlMsg>, name: string): (k: nat)
    ensures k <= |msgs|
    ensures forall i :: 0 <= i < k ==> msgs[i].name.None? || FirstFifteen(msgs[i].name.value) != name
    ensures k < |msgs| ==> msgs[k].name.Some? && FirstFifteen(msgs[k].name.value) == name
  {
    if msgs == [] then 0
    else if msgs[0].name.Some? && FirstFifteen(msgs[0].name.value) == name then 0
    else 1 + FirstMessage(msgs[1..], name)
  }

  lemma {:induction false} FirstNamedIsFirstMessage(msgs: seq<CtrlMsg>, name: string)
    requires forall i :: 0 <= i < |msgs| ==> Complete(msgs[i])
    ensures ReceptionResult(msgs, 0) == 0
    ensures var k, f := FirstMessage(msgs, name), FirstNamed(FamiliesBefore(msgs), name);
            if k < |msgs| then f.Some? && Complete(msgs[k]) && Holds(f.value, msgs[k]) && FamilyOf(msgs[k]) == Ok(f.value)
            else f.None?
  {
    hide FamilyOf, FirstFifteen, Complete, Holds;
    if msgs != [] {
      FamilyHoldsMessage(msgs[0]);
      FirstNamedIsFirstMessage(msgs[1..], name);
      var f, rest := FamilyOf(msgs[0]).value, FamiliesBefore(msgs[1..]);
      NameAndId(f, msgs[0]);
      assert FamiliesBefore(msgs) == [f] + rest && ([f] + rest)[1..] == rest;
    }
  }

  /** The identifier in a message has sixteen bits. */
  function NumberIn(m: CtrlMsg): nat {
    if m.id.Some? then m.id.value % 65536 else 0
  }

  lemma NameAndId(f: Family, m: CtrlMsg)
    requires Complete(m) && Holds(f, m)
    ensures m.name.Some? && f.name == FirstFifteen(m.name.value) && GetId(f) == NumberIn(m)
  {
  }

  /**
   From the messages alone: where all are complete and the reception ends well, the number resolved is that
   of the first message with the name, or -12.
   */
  lemma ResolvedFromMessages(msgs: seq<CtrlMsg>, name: string)
    requires forall i :: 0 <= i < |msgs| ==> Complete(msgs[i])
    ensures var k := FirstMessage(msgs, name);
            Resolved(Received(msgs, 0), name) == if k < |msgs| then NumberIn(msgs[k]) else -12
  {
    hide FamilyOf, FirstFifteen, Holds, FamiliesBefore, FirstNamed;
    FirstNamedIsFirstMessage(msgs, name);
    var k := FirstMessage(msgs, name);
    if k < |msgs| {
      NameAndId(FirstNamed(FamiliesBefore(msgs), name).value, msgs[k]);
    }
  }

  /** The same for a group: that of the first group in that message whose name, as stored, is the one looked for. */
  lemma ResolvedGroupFromMessages(msgs: seq<CtrlMsg>, name: string, group: string)
    requires forall i :: 0 <= i < |msgs| ==> Complete(msgs[i])
    ensures var k := FirstMessage(msgs, name);
            if k == |msgs| then ResolvedGroup(Received(msgs, 0), name, group) == -12
            else
              var i := FirstStored(msgs[k].grps, group);
              ResolvedGroup(Received(msgs, 0), name, group) ==
              if i < |msgs[k].grps| && msgs[k].grps[i].id.Some? then Signed(msgs[k].grps[i].id.value) else -12
  {
    hide FamilyOf, FirstFifteen, Holds, FamiliesBefore, FirstNamed, GroupId, FirstStored, ToInt, Signed;
    FirstNamedIsFirstMessage(msgs, name);
    var k := FirstMessage(msgs, name);
    if k < |msgs| {
      var m := msgs[k];
      GroupsOfFamily(m);
      GroupIdOfFirst(m.grps, group);
      var i := FirstStored(m.grps, group);
      if i < |m.grps| && m.grps[i].id.Some? {
        SignedIs(m.grps[i].id.value);
      }
    }
  }

  /** A 32-bit number read as a signed one. */
  function Signed(v: uint32): int {
    if v < 0x8000_0000 then v else v - 0x1_0000_0000
  }

  lemma SignedIs(v: uint32)
    ensures ToInt(v) == Signed(v)
  {
  }

  lemma GroupsOfFamily(m: CtrlMsg)
    requires FamilyOf(m).Ok?
    ensures GroupsOf(m.grps).Ok? && FamilyOf(m).value.groups == GroupsOf(m.grps).value
  {
    hide OpersOf, GroupsOf, Stored;
  }

  /** An error of the reception, or of the first message that is not complete, is reported. */
  lemma {:induction false} ResolvedAfterDefect(msgs: seq<CtrlMsg>, result: int, name: string, k: nat)
    requires k <= |msgs| && forall i :: 0 <= i < k ==> Complete(msgs[i])
    requires if k < |msgs| then FamilyOf(msgs[k]).Error? && FamilyOf(msgs[k]).code < 0 else result < 0
    ensures Resolved(Received(msgs, result), name) == if k < |msgs| then FamilyOf(msgs[k]).code else result
    ensures ReceptionResult(msgs, result) == if k < |msgs| then FamilyOf(msgs[k]).code else result
  {
    hide FamilyOf, Complete;
    if k > 0 {
      FamilyHoldsMessage(msgs[0]);
      ResolvedAfterDefect(msgs[1..], result, name, k - 1);
    }
  }

  /** The group identifier `genl_ctrl_resolve_grp` finds, or the error it reports. */
  function ResolvedGroup(d: Dump, name: string, group: string): int {
    match d
    case Refused(err) => err
    case Received(msgs, result) =>
      if ReceptionResult(msgs, result) < 0 then ReceptionResult(msgs, result)
      else
        match FirstNamed(FamiliesBefore(msgs), name)
        case None => -NLE_OBJ_NOTFOUND
        case Some(f) => GroupId(f.groups, group)
  }

  /** The number of the first group of that name, returned as an `int`. */
  function GroupId(groups: seq<(string, nat)>, group: string): int {
    if groups == [] then -NLE_OBJ_NOTFOUND
    else if groups[0].0 == group then ToInt(groups[0].1)
    else GroupId(groups[1..], group)
  }

  /** `nl_cache_alloc_and_fill` for the controller's cache; on failure the cache is freed again. */
  method AllocAndFill(st: Store, d: Dump) returns (err: int, c: NlCache?)
    requires st.Valid() && WellFormedDump(d)
    modifies st
    ensures st.Valid() && OnlyTheCacheHolds(st)
    ensures err == DumpResult(d) <= 0
    ensures err < 0 ==> c == null && AllNewFreed(st)
    ensures err == 0 ==>
              && c != null && fresh(c) && c in st.caches && !c.freed && st.caches == old(st.caches) + {c}
              && NewOnlyIn(st, c) && (forall o :: o in c.items ==> fresh(o))
              && d.Received? && DataOf(c.items) == FamiliesBefore(d.msgs)
  {
    hide WellFormed, FamilyOf, Store.Valid, FamiliesBefore, ReceptionResult, DataOf;
    st.EveryObjectIsCounted();
    c := st.AllocCache(FAMILY_OPS);
    err := Refill(st, c, d);
    if err < 0 {
      st.ItemsAreLive(c);
      st.FreeCache(c);
      return err, null;
    }
  }

  /** Every object and cache made since the call has been released. */
  twostate predicate AllNewFreed(st: Store)
    reads st, st.objects, st.caches
  {
    && (forall o :: o in st.objects && o !in old(st.objects) ==> o.freed)
    && (forall c :: c in st.caches && c !in old(st.caches) ==> c.freed && c.items == [])
  }

  /** `genl_ctrl_grp_by_name` */
  method GrpByName(f: Family, group: string) returns (r: int)
    ensures r == GroupId(f.groups, group)
  {
    var i := 0;
    assert f.groups[0..] == f.groups;
    while i < |f.groups|
      invariant 0 <= i <= |f.groups|
      invariant GroupId(f.groups, group) == GroupId(f.groups[i..], group)
    {
      assert f.groups[i..][1..] == f.groups[i + 1..];
      if f.groups[i].0 == group {
        return ToInt(f.groups[i].1);
      }
      i := i + 1;
    }
    return -NLE_OBJ_NOTFOUND;
  }

  /**
   `genl_ctrl_resolve`.  Whether or not the name is found, every object and the cache made on the way
   are freed, and every reference held before is held still.
   */
  method Resolve(st: Store, d: Dump, name: string) returns (r: int)
    requires st.Valid() && WellFormedDump(d)
    modifies st
    ensures st.Valid() && OnlyTheCacheHolds(st) && AllNewFreed(st)
    ensures r == Resolved(d, name)
  {
    hide FamilyOf, WellFormed, FamiliesBefore, ReceptionResult, FirstNamed, DataOf, Store.Valid, Store.ValidBut;
    var cache;
    r, cache := AllocAndFill(st, d);
    if r < 0 {
      return;
    }
    assert forall o :: o in cache.items ==> fresh(o);
    r := ResolveIn(st, cache, name);
    st.FreeCache(cache);
  }

  /** The lookup in the filled cache; the reference that the search returns is given back. */
  method ResolveIn(st: Store, c: NlCache, name: string) returns (r: int)
    requires st.Valid() && c in st.caches
    modifies st`holders, (set o | o in c.items)`refcnt, (set o | o in c.items)`freed
    ensures st.Valid() && st.holders == old(st.holders)
    ensures forall o :: o in c.items ==> o.freed == old(o.freed)
    ensures r == match FirstNamed(old(DataOf(c.items)), name) case None => -12 case Some(f) => GetId(f)
  {
    hide FirstNamed, DataOf, Store.Valid;
    st.ItemsAreLive(c);
    var family := SearchByName(st, c, name);
    if family == null {
      return -NLE_OBJ_NOTFOUND;
    }
    r := GetId(family.data);
    st.Put(family);
  }

  /** `genl_ctrl_resolve_grp` */
  method ResolveGrp(st: Store, d: Dump, name: string, group: string) returns (r: int)
    requires st.Valid() && WellFormedDump(d)
    modifies st
    ensures st.Valid() && OnlyTheCacheHolds(st) && AllNewFreed(st)
    ensures r == ResolvedGroup(d, name, group)
  {
    hide FamilyOf, WellFormed, FamiliesBefore, ReceptionResult, FirstNamed, GroupId, DataOf, Store.Valid, Store.ValidBut;
    var cache;
    r, cache := AllocAndFill(st, d);
    if r < 0 {
      return;
    }
    assert forall o :: o in cache.items ==> fresh(o);
    r := ResolveGrpIn(st, cache, name, group);
    st.FreeCache(cache);
  }

  /** The lookup in the filled cache; the reference that the search returns is given back. */
  method ResolveGrpIn(st: Store, c: NlCache, name: string, group: string) returns (r: int)
    requires st.Valid() && c in st.caches
    modifies st`holders, (set o | o in c.items)`refcnt, (set o | o in c.items)`freed
    ensures st.Valid() && st.holders == old(st.holders)
    ensures forall o :: o in c.items ==> o.freed == old(o.freed)
    ensures r == match FirstNamed(old(DataOf(c.items)), name)
                 case None => -12
                 case Some(f) => GroupId(f.groups, group)
  {
    hide FirstNamed, GroupId, DataOf, Store.Valid;
    st.ItemsAreLive(c);
    var family := SearchByName(st, c, name);
    if family == null {
      return -NLE_OBJ_NOTFOUND;
    }
    r := GrpByName(family.data, group);
    st.Put(family);
  }

  // ---------------------------------------------------------------- names longer than the array

  lemma {:induction false} GroupNamesAreShort(s: seq<GrpAttr>)
    requires GroupsOf(s).Ok?
    ensures forall i :: 0 <= i < |GroupsOf(s).value| ==> |GroupsOf(s).value[i].0| < GENL_NAMSIZ
    ensures |GroupsOf(s).value| == |s|
    ensures forall i :: 0 <= i < |s| ==>
              s[i].id.Some? && s[i].name.Some? && GroupsOf(s).value[i].0 == Stored(s[i].name.value)
  {
    if s != [] {
      GroupNamesAreShort(s[1..]);
    }
  }

  /** The place of the first group whose stored name is the one looked for. */
  function FirstStored(s: seq<GrpAttr>, group: string): (k: nat)
    ensures k <= |s|
    ensures forall i :: 0 <= i < k && s[i].name.Some? ==> Stored(s[i].name.value) != group
    ensures k < |s| ==> s[k].name.Some? && Stored(s[k].name.value) == group
  {
    if s == [] then 0
    else if s[0].name.Some? && Stored(s[0].name.value) == group then 0
    else 1 + FirstStored(s[1..], group)
  }

  lemma {:induction false} GroupIdOfFirst(s: seq<GrpAttr>, group: string)
    requires GroupsOf(s).Ok?
    ensures var k := FirstStored(s, group);
            GroupId(GroupsOf(s).value, group) ==
            if k < |s| && s[k].id.Some? then ToInt(s[k].id.value) else -12
  {
    hide Stored, ToInt;
    if s != [] {
      GroupIdOfFirst(s[1..], group);
      var rest := GroupsOf(s[1..]).value;
      var first := (Stored(s[0].name.value), s[0].id.value);
      assert GroupsOf(s).value == [first] + rest && ([first] + rest)[1..] == rest;
    }
  }

  /**
   Looking up a group that a family message announces gives no error exactly when its name fits the array,
   so that it is not stored cut off, and the first group stored under that name has a number below 2^31:
   the numbers are unsigned, but are returned as `int`.
   */
  lemma AnnouncedGroupIsFound(s: seq<GrpAttr>, k: nat)
    requires GroupsOf(s).Ok? && k < |s|
    ensures s[k].name.Some?
    ensures var name := s[k].name.value;
            var first := FirstStored(s, name);
            GroupId(GroupsOf(s).value, name) >= 0 <==>
            |name| < 16 && first <= k && s[first].id.Some? && s[first].id.value < 0x8000_0000
  {
    hide GroupsOf, GroupId, ToInt;
    GroupNamesAreShort(s);
    var name := s[k].name.value;
    var first := FirstStored(s, name);
    GroupIdOfFirst(s, name);
    if |name| < GENL_NAMSIZ {
      assert first <= k && s[first].id.Some?;
      SignOfToInt(s[first].id.value);
    } else {
      assert first == |s|;
    }
  }

  lemma SignOfToInt(v: uint32)
    ensures ToInt(v) >= 0 <==> v < 0x8000_0000
  {
  }

  /** A short name that is announced, and stored, is reported as an error. */
  lemma LargeGroupIdIsAnError()
    ensures var s := [GrpAttr(0, Some(0x8000_0001), Some("abcde"))];
            GroupsOf(s).Ok? && GroupId(GroupsOf(s).value, "abcde") == -0x7FFF_FFFF
  {
    var s := [GrpAttr(0, Some(0x8000_0001), Some("abcde"))];
    var none: seq<GrpAttr> := [];
    assert s[1..] == none && GroupsOf(none).Ok? && GroupsOf(none).value == [];
    assert GroupsOf(s).value == [("abcde", 0x8000_0001)] + [];
  }
}
