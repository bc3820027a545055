/**
 Policies, and the three loops over an attribute stream: `nla_parse`, `nla_validate` and `nla_find`
 (wifi/libnl-tiny/attr.c).
 */
module NlParse {
  import opened Bytes
  import opened NlAttr
  import opened Options

  const NLE_INVAL := 7
  const NLE_RANGE := 8

  datatype PolicyType = Unspec | U8 | U16 | U32 | U64 | String | Flag | Msecs | Nested

  datatype Policy = Policy(ptype: PolicyType, minlen: nat, maxlen: nat)

  /** `nla_attr_minlen` */
  function DefaultMinlen(t: PolicyType): nat {
    match t
    case U8 => 1
    case U16 => 2
    case U32 => 4
    case U64 => 8
    case String => 1
    case _ => 0
  }

  /** `validate_nla` past its type check: 0 or a negative error. */
  function Check(a: Attr, pt: Policy): int {
    var len := |a.payload|;
    var minlen := if pt.minlen != 0 then pt.minlen else DefaultMinlen(pt.ptype);
    if pt.ptype.Flag? && len > 0 then -NLE_RANGE
    else if len < minlen then -NLE_RANGE
    else if pt.maxlen != 0 && len > pt.maxlen then -NLE_RANGE
    else if pt.ptype.String? && a.payload[len - 1] != 0 then -NLE_INVAL
    else 0
  }

  /** `validate_nla` */
  function Validate(a: Attr, policy: seq<Policy>): int
    requires |policy| >= 1
  {
    if TypeOf(a) == 0 || TypeOf(a) >= |policy| then 0 else Check(a, policy[TypeOf(a)])
  }

  // ---------------------------------------------------------------- what a policy guarantees

  /** The length that the type of an integer implies. */
  predicate HasItsSize(t: PolicyType, n: nat) {
    && (t.U8? ==> n >= 1) && (t.U16? ==> n >= 2) && (t.U32? ==> n >= 4) && (t.U64? ==> n >= 8)
  }

  /** What passes a policy without bounds. */
  lemma WhenAnAttributePasses(a: Attr, t: PolicyType)
    ensures var n, passes := |a.payload|, Check(a, Policy(t, 0, 0)) == 0;
            && (t.U8? ==> (passes <==> n >= 1)) && (t.U16? ==> (passes <==> n >= 2))
            && (t.U32? ==> (passes <==> n >= 4)) && (t.U64? ==> (passes <==> n >= 8))
            && (t.String? ==> (passes <==> n >= 1 && a.payload[n - 1] == 0)) && (t.Flag? ==> (passes <==> n == 0))
            && (t.Unspec? || t.Msecs? || t.Nested? ==> passes)
  {
  }

  /** The length is wrong: a flag has a payload, or a bound or the size of the type is not kept. */
  ghost predicate WrongLength(a: Attr, pt: Policy) {
    var n := |a.payload|;
    || (pt.ptype.Flag? && n > 0)
    || n < pt.minlen
    || (pt.minlen == 0 && (!HasItsSize(pt.ptype, n) || (pt.ptype.String? && n == 0)))
    || (pt.maxlen != 0 && n > pt.maxlen)
  }

  /** Wrong lengths are out of range, -8; a string of the right length that does not end in zero is invalid, -7. */
  lemma WhichErrorIsGiven(a: Attr, pt: Policy)
    ensures Check(a, pt) == -8 <==> WrongLength(a, pt)
    ensures Check(a, pt) == -7 <==>
            !WrongLength(a, pt) && pt.ptype.String? && a.payload != [] && a.payload[|a.payload| - 1] != 0
    ensures Check(a, pt) == 0 || Check(a, pt) == -7 || Check(a, pt) == -8
  {
  }

  /** Attributes whose type has no policy pass: types beyond the policy, and type zero; the upper two bits do not count. */
  lemma WhenATypeIsIgnored(a: Attr, policy: seq<Policy>)
    requires |policy| >= 1
    ensures var t := a.rawType % 16384;
            Validate(a, policy) == if 0 < t < |policy| then Check(a, policy[t]) else 0
  {
  }

  /** What the attribute documentation promises of an attribute that has passed. */
  ghost predicate Conforms(a: Attr, pt: Policy) {
    && pt.minlen <= |a.payload|
    && (pt.maxlen != 0 ==> |a.payload| <= pt.maxlen)
    && (pt.ptype.String? ==> exists i :: 0 <= i == |a.payload| - 1 && a.payload[i] == 0)
    && (pt.ptype.Flag? ==> a.payload == [])
    && (pt.minlen == 0 ==> HasItsSize(pt.ptype, |a.payload|))
  }

  lemma PassingConforms(a: Attr, pt: Policy)
    ensures Check(a, pt) == 0 <==> Conforms(a, pt)
  {
    var n := |a.payload| - 1;
    if pt.ptype.String? && Check(a, pt) == 0 {
      assert 0 <= n == |a.payload| - 1 && a.payload[n] == 0;
    }
  }

  /**
   The documentation says the length of an integer type is implied and that `minlen` and `maxlen` have
   no effect on a flag.  The first holds exactly when `minlen` is unset or at least as large, and a flag
   can pass exactly when `minlen` is unset.
   */
  lemma WhenTheTypeImpliesTheLength(pt: Policy)
    requires pt.ptype.U8? || pt.ptype.U16? || pt.ptype.U32? || pt.ptype.U64?
    ensures (forall a :: Check(a, pt) == 0 ==> HasItsSize(pt.ptype, |a.payload|))
       <==> pt.minlen == 0 || HasItsSize(pt.ptype, pt.minlen) || (0 < pt.maxlen < pt.minlen)
  {
    var short := Attr(0, Padding(pt.minlen));
    if 0 < pt.minlen && !HasItsSize(pt.ptype, pt.minlen) && !(0 < pt.maxlen < pt.minlen) {
      assert Check(short, pt) == 0;
    }
  }

  lemma WhenAFlagCanPass(pt: Policy)
    requires pt.ptype.Flag?
    ensures (exists a :: Check(a, pt) == 0) <==> pt.minlen == 0
  {
    if pt.minlen == 0 {
      assert Check(Attr(0, []), pt) == 0;
    }
  }

  // ---------------------------------------------------------------- specification of the loops

  /** Index of the first offset whose attribute fails, or the number of offsets. */
  function FirstFailure(s: seq<byte>, offs: seq<nat>, policy: seq<Policy>): (k: nat)
    requires |policy| >= 1
    requires AllOk(s, offs)
    ensures k <= |offs|
    ensures forall i :: 0 <= i < k ==> Validate(AttrAt(s, offs[i]), policy) == 0
    ensures k < |offs| ==> Validate(AttrAt(s, offs[k]), policy) < 0
  {
    if offs == [] || Validate(AttrAt(s, offs[0]), policy) < 0 then 0
    else 1 + FirstFailure(s, offs[1..], policy)
  }

  function FirstOf(s: seq<byte>, offs: seq<nat>, t: nat): (r: Option<nat>)
    requires AllOk(s, offs)
    ensures r.None? ==> forall i :: 0 <= i < |offs| ==> TypeOf(AttrAt(s, offs[i])) != t
    ensures r.Some? ==> r.value in offs && TypeOf(AttrAt(s, r.value)) == t
  {
    if offs == [] then None
    else if TypeOf(AttrAt(s, offs[0])) == t then Some(offs[0])
    else FirstOf(s, offs[1..], t)
  }

  function LastOf(s: seq<byte>, offs: seq<nat>, t: nat): (r: Option<nat>)
    requires AllOk(s, offs)
    ensures r.None? ==> forall i :: 0 <= i < |offs| ==> TypeOf(AttrAt(s, offs[i])) != t
    ensures r.Some? ==> r.value in offs && TypeOf(AttrAt(s, r.value)) == t
  {
    if offs == [] then None
    else
      var n := |offs| - 1;
      if TypeOf(AttrAt(s, offs[n])) == t then Some(offs[n]) else LastOf(s, offs[..n], t)
  }

  /** The result of validating a whole stream. */
  function StreamResult(s: seq<byte>, policy: seq<Policy>): int
    requires |policy| >= 1 && StaysInside(s, 0)
  {
    var offs := Offsets(s, 0);
    var k := FirstFailure(s, offs, policy);
    if k < |offs| then Validate(AttrAt(s, offs[k]), policy) else 0
  }

  // ---------------------------------------------------------------- the loops

  /** What the loops know at offset `p` after the offsets `seen`. */
  ghost predicate At(s: seq<byte>, p: nat, rem: int, seen: seq<nat>) {
    && StaysInside(s, 0) && StaysInside(s, p)
    && rem == |s| - p
    && Offsets(s, 0) == seen + Offsets(s, p)
  }

  /** The test of `nla_for_each_attr`; `remaining` is not negative where it is called. */
  function NlaOk(s: seq<byte>, p: nat, rem: int): (r: bool)
    requires 0 <= rem == |s| - p
    ensures r == Ok(s, p)
  {
    rem >= 4 && Get16(s, p) >= 4 && Get16(s, p) <= rem
  }

  lemma Advance(s: seq<byte>, p: nat, rem: int, seen: seq<nat>)
    requires At(s, p, rem, seen) && Ok(s, p)
    ensures At(s, Next(s, p), rem - Align(LenAt(s, p)), seen + [p])
    ensures p in Offsets(s, 0) && |seen| < |Offsets(s, 0)| && Offsets(s, 0)[|seen|] == p
  {
    hide LenAt, Align;
    var rest := Offsets(s, Next(s, p));
    assert Offsets(s, p) == [p] + rest;
    assert Offsets(s, 0) == seen + ([p] + rest) == (seen + [p]) + rest;
  }

  lemma {:induction false} FailureIsFirst(s: seq<byte>, offs: seq<nat>, policy: seq<Policy>, k: nat)
    requires |policy| >= 1 && AllOk(s, offs)
    requires k <= |offs| && forall i :: 0 <= i < k ==> Validate(AttrAt(s, offs[i]), policy) == 0
    requires k < |offs| ==> Validate(AttrAt(s, offs[k]), policy) < 0
    ensures FirstFailure(s, offs, policy) == k
  {
    hide Validate, AttrAt;
    if k > 0 {
      FailureIsFirst(s, offs[1..], policy, k - 1);
    }
  }

  /** `nla_validate` */
  method NlaValidate(s: seq<byte>, policy: seq<Policy>) returns (r: int)
    requires |policy| >= 1 && StaysInside(s, 0)
    ensures r == StreamResult(s, policy)
  {
    hide Validate, AttrAt, Ok, Align;
    var p, rem := 0, |s|;
    ghost var seen: seq<nat> := [];
    while NlaOk(s, p, rem)
      invariant At(s, p, rem, seen)
      invariant AllOk(s, seen)
      invariant forall i :: 0 <= i < |seen| ==> Validate(AttrAt(s, seen[i]), policy) == 0
      decreases rem
    {
      Advance(s, p, rem, seen);
      var err := Validate(AttrAt(s, p), policy);
      if err < 0 {
        FailureIsFirst(s, Offsets(s, 0), policy, |seen|);
        return err;
      }
      ErrorsAreNegative(AttrAt(s, p), policy);
      rem := rem - Align(LenAt(s, p));
      seen := seen + [p];
      p := Next(s, p);
    }
    assert Offsets(s, 0) == seen;
    FailureIsFirst(s, seen, policy, |seen|);
    return 0;
  }

  lemma ErrorsAreNegative(a: Attr, policy: seq<Policy>)
    requires |policy| >= 1
    ensures Validate(a, policy) <= 0
  {
  }

  lemma FindStep(s: seq<byte>, p: nat, t: nat)
    requires StaysInside(s, p)
    ensures Ok(s, p) && TypeOf(AttrAt(s, p)) == t ==> FirstOf(s, Offsets(s, p), t) == Some(p)
    ensures Ok(s, p) && TypeOf(AttrAt(s, p)) != t ==>
              FirstOf(s, Offsets(s, p), t) == FirstOf(s, Offsets(s, Next(s, p)), t)
    ensures !Ok(s, p) ==> FirstOf(s, Offsets(s, p), t) == None
  {
    hide AttrAt, Next, TypeOf;
    if Ok(s, p) {
      assert Offsets(s, p)[1..] == Offsets(s, Next(s, p));
    }
  }

  lemma LastStep(s: seq<byte>, seen: seq<nat>, p: nat, t: nat)
    requires AllOk(s, seen + [p]) && AllOk(s, seen)
    ensures p <= |s| && Ok(s, p)
    ensures LastOf(s, seen + [p], t) == if TypeOf(AttrAt(s, p)) == t then Some(p) else LastOf(s, seen, t)
  {
    hide AttrAt, Ok, TypeOf;
    assert (seen + [p])[|seen|] == p;
    assert (seen + [p])[..|seen|] == seen;
  }

  /** `nla_find`: the offset of the attribute found. */
  method NlaFind(s: seq<byte>, attrtype: nat) returns (r: Option<nat>)
    requires StaysInside(s, 0)
    ensures r == FirstOf(s, Offsets(s, 0), attrtype)
  {
    hide AttrAt, Ok, Align, LenAt, TypeOf, FirstOf, Offsets;
    var p, rem := 0, |s|;
    ghost var seen: seq<nat> := [];
    while NlaOk(s, p, rem)
      invariant At(s, p, rem, seen)
      invariant FirstOf(s, Offsets(s, 0), attrtype) == FirstOf(s, Offsets(s, p), attrtype)
      decreases rem
    {
      Advance(s, p, rem, seen);
      FindStep(s, p, attrtype);
      if TypeOf(AttrAt(s, p)) == attrtype {
        return Some(p);
      }
      rem := rem - Align(LenAt(s, p));
      seen := seen + [p];
      p := Next(s, p);
    }
    FindStep(s, p, attrtype);
    return None;
  }

  /** The attributes `nla_parse` stores: all of them, or those before the first that fails. */
  function Stored(s: seq<byte>, policy: Option<seq<Policy>>): (offs: seq<nat>)
    requires StaysInside(s, 0) && (policy.Some? ==> |policy.value| >= 1)
    ensures AllOk(s, offs)
  {
    var offs := Offsets(s, 0);
    if policy.None? then offs else offs[..FirstFailure(s, offs, policy.value)]
  }

  ghost predicate AllPass(s: seq<byte>, offs: seq<nat>, policy: Option<seq<Policy>>)
    requires AllOk(s, offs) && (policy.Some? ==> |policy.value| >= 1)
  {
    policy.Some? ==> forall i :: 0 <= i < |offs| ==> Validate(AttrAt(s, offs[i]), policy.value) == 0
  }

  lemma StoredPrefix(s: seq<byte>, policy: Option<seq<Policy>>, seen: seq<nat>)
    requires StaysInside(s, 0) && (policy.Some? ==> |policy.value| >= 1)
    requires seen <= Offsets(s, 0) && AllOk(s, seen) && AllPass(s, seen, policy)
    requires if |seen| == |Offsets(s, 0)| then true
             else policy.Some? && Validate(AttrAt(s, Offsets(s, 0)[|seen|]), policy.value) < 0
    ensures seen == Stored(s, policy)
    ensures policy.Some? ==>
              StreamResult(s, policy.value) == if |seen| == |Offsets(s, 0)| then 0
                                               else Validate(AttrAt(s, Offsets(s, 0)[|seen|]), policy.value)
  {
    hide Validate, AttrAt;
    if policy.Some? {
      FailureIsFirst(s, Offsets(s, 0), policy.value, |seen|);
    }
  }

  /**
   `nla_parse`: `tb` has one entry per type up to `maxtype`; a policy, when given, has as many.
   */
  method NlaParse(tb: array<Option<nat>>, s: seq<byte>, policy: Option<seq<Policy>>) returns (r: int)
    requires tb.Length >= 1 && StaysInside(s, 0)
    requires policy.Some? ==> |policy.value| == tb.Length
    modifies tb
    ensures r == if policy.Some? then StreamResult(s, policy.value) else 0
    ensures tb[0] == None
    ensures forall t :: 0 < t < tb.Length ==> tb[t] == LastOf(s, Stored(s, policy), t)
  {
    hide Validate, AttrAt, Ok, Align, LenAt, TypeOf, FirstFailure, LastOf, Offsets, Stored;
    forall t | 0 <= t < tb.Length {
      tb[t] := None;
    }
    var p, rem := 0, |s|;
    ghost var seen: seq<nat> := [];
    NothingSeen(s);
    while NlaOk(s, p, rem)
      invariant At(s, p, rem, seen) && AllOk(s, seen)
      invariant AllPass(s, seen, policy)
      invariant tb[0] == None && forall t :: 0 < t < tb.Length ==> tb[t] == LastOf(s, seen, t)
      decreases rem
    {
      Advance(s, p, rem, seen);
      var t := TypeOf(AttrAt(s, p));
      if t != 0 && t < tb.Length {
        if policy.Some? {
          var err := Validate(AttrAt(s, p), policy.value);
          if err < 0 {
            StoredPrefix(s, policy, seen);
            return err;
          }
          ErrorsAreNegative(AttrAt(s, p), policy.value);
        }
        tb[t] := Some(p);
      } else if policy.Some? {
        IgnoredPass(AttrAt(s, p), policy.value);
      }
      forall u
        ensures LastOf(s, seen + [p], u) == if t == u then Some(p) else LastOf(s, seen, u)
      {
        LastStep(s, seen, p, u);
      }
      rem := rem - Align(LenAt(s, p));
      seen := seen + [p];
      p := Next(s, p);
    }
    StreamEnds(s, p);
    assert Offsets(s, 0) == seen;
    StoredPrefix(s, policy, seen);
    return 0;
  }

  lemma NothingSeen(s: seq<byte>)
    ensures forall t: nat :: LastOf(s, [], t) == None
  {
  }

  lemma StreamEnds(s: seq<byte>, p: nat)
    requires StaysInside(s, p) && !Ok(s, p)
    ensures Offsets(s, p) == []
  {
  }

  lemma IgnoredPass(a: Attr, policy: seq<Policy>)
    requires |policy| >= 1 && (TypeOf(a) == 0 || TypeOf(a) >= |policy|)
    ensures Validate(a, policy) == 0
  {
  }

  // ---------------------------------------------------------------- consequences

  /** When parsing succeeds every stored attribute conforms to its policy. */
  lemma ParsedConform(s: seq<byte>, policy: seq<Policy>, t: nat)
    requires |policy| >= 1 && StaysInside(s, 0) && StreamResult(s, policy) == 0 && 0 < t < |policy|
    ensures var r := LastOf(s, Stored(s, Some(policy)), t);
            r == LastOf(s, Offsets(s, 0), t) &&
            (r.Some? ==> r.value <= |s| && Ok(s, r.value) && Conforms(AttrAt(s, r.value), policy[t]))
  {
    hide AttrAt, Ok, Check, Conforms;
    var offs := Offsets(s, 0);
    assert FirstFailure(s, offs, policy) == |offs|;
    assert offs[..|offs|] == offs;
    var r := LastOf(s, offs, t);
    if r.Some? {
      var i :| 0 <= i < |offs| && offs[i] == r.value;
      PassingConforms(AttrAt(s, r.value), policy[t]);
    }
  }

  ghost predicate UniqueType(s: seq<byte>, offs: seq<nat>, t: nat)
    requires AllOk(s, offs)
  {
    forall i, j :: 0 <= i < j < |offs| ==> !(TypeOf(AttrAt(s, offs[i])) == t == TypeOf(AttrAt(s, offs[j])))
  }

  /** `nla_find` returns the first attribute of a type and `nla_parse` the last: the same, if unique. */
  lemma FindAgreesWithParse(s: seq<byte>, t: nat)
    requires StaysInside(s, 0)
    ensures var offs := Offsets(s, 0);
            FirstOf(s, offs, t) == LastOf(s, offs, t) <==> UniqueType(s, offs, t)
  {
    hide AttrAt, Ok, TypeOf, FirstOf, LastOf, Offsets, StaysInside;
    var offs := Offsets(s, 0);
    FirstIsLeast(s, offs, t);
    LastIsGreatest(s, offs, t);
    OffsetsIncrease(s, 0);
    var f, l := FirstOf(s, offs, t), LastOf(s, offs, t);
    if f == l && f.Some? {
      var a :| 0 <= a < |offs| && offs[a] == f.value && forall i :: 0 <= i < a ==> TypeOf(AttrAt(s, offs[i])) != t;
      var b :| 0 <= b < |offs| && offs[b] == l.value && forall i :: b < i < |offs| ==> TypeOf(AttrAt(s, offs[i])) != t;
      assert a == b;
    }
  }

  lemma {:induction false} OffsetsIncrease(s: seq<byte>, p: nat)
    requires StaysInside(s, p)
    ensures forall i :: 0 <= i < |Offsets(s, p)| ==> Offsets(s, p)[i] >= p
    ensures forall i, j :: 0 <= i < j < |Offsets(s, p)| ==> Offsets(s, p)[i] < Offsets(s, p)[j]
    decreases |s| - p
  {
    if Ok(s, p) {
      OffsetsIncrease(s, Next(s, p));
    }
  }

  lemma {:induction false} FirstIsLeast(s: seq<byte>, offs: seq<nat>, t: nat)
    requires AllOk(s, offs)
    ensures var f := FirstOf(s, offs, t);
            f.Some? ==> exists a :: 0 <= a < |offs| && offs[a] == f.value &&
                                    forall i :: 0 <= i < a ==> TypeOf(AttrAt(s, offs[i])) != t
  {
    hide AttrAt, Ok, TypeOf;
    var f := FirstOf(s, offs, t);
    if f.Some? && TypeOf(AttrAt(s, offs[0])) != t {
      FirstIsLeast(s, offs[1..], t);
      var a :| 0 <= a < |offs[1..]| && offs[1..][a] == f.value && forall i :: 0 <= i < a ==> TypeOf(AttrAt(s, offs[1..][i])) != t;
      assert offs[a + 1] == f.value;
      forall i | 0 <= i < a + 1
        ensures TypeOf(AttrAt(s, offs[i])) != t
      {
        if i > 0 {
          assert offs[i] == offs[1..][i - 1];
        }
      }
    } else if f.Some? {
      assert offs[0] == f.value;
    }
  }

  lemma {:induction false} LastIsGreatest(s: seq<byte>, offs: seq<nat>, t: nat)
    requires AllOk(s, offs)
    ensures var l := LastOf(s, offs, t);
            l.Some? ==> exists b :: 0 <= b < |offs| && offs[b] == l.value &&
                                    forall i :: b < i < |offs| ==> TypeOf(AttrAt(s, offs[i])) != t
  {
    hide AttrAt, Ok, TypeOf;
    var l, n := LastOf(s, offs, t), |offs| - 1;
    if l.Some? && TypeOf(AttrAt(s, offs[n])) != t {
      LastIsGreatest(s, offs[..n], t);
      var init := offs[..n];
      var b :| 0 <= b < n && init[b] == l.value && forall i :: b < i < n ==> TypeOf(AttrAt(s, init[i])) != t;
      assert offs[b] == l.value;
      forall i | b < i < |offs|
        ensures TypeOf(AttrAt(s, offs[i])) != t
      {
        if i < n {
          assert offs[i] == init[i];
        }
      }
    } else if l.Some? {
      assert offs[n] == l.value;
    }
  }
}
