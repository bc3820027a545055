/**
 The RSN element (section 9.4.2.25 of IEEE 802.11-2016): its encoding, and the reading of it by
 `_print_rsn_ie` (wifi/iw/scan.c).
 */
module Rsn {
  import opened Bytes
  import opened Options

  type Suite = s: seq<byte> | |s| == 4 witness [0, 0, 0, 0]

  /** The fields after the version.  Each may be left out together with all that follow it. */
  datatype Fields = Fields(group: Option<Suite>, pairwise: Option<seq<Suite>>, akms: Option<seq<Suite>>,
                           capabilities: Option<nat>, pmkids: Option<seq<byte>>, mgmt: Option<Suite>)

  ghost predicate WellFormed(f: Fields) {
    && (f.pairwise.Some? ==> f.group.Some? && |f.pairwise.value| < 0x1_0000)
    && (f.akms.Some? ==> f.pairwise.Some? && |f.akms.value| < 0x1_0000)
    && (f.capabilities.Some? ==> f.akms.Some? && f.capabilities.value < 0x1_0000)
    && (f.pmkids.Some? ==> f.capabilities.Some? && |f.pmkids.value| % 16 == 0 && |f.pmkids.value| / 16 < 0x1_0000)
    && (f.mgmt.Some? ==> f.pmkids.Some?)
  }

  // ---------------------------------------------------------------- encoding

  function Word(n: nat): (s: seq<byte>)
    requires n < 0x1_0000
    ensures |s| == 2 && U16(s[0], s[1]) == n
  {
    [(n % 256) as byte, (n / 256) as byte]
  }

  /** The little-endian 16-bit number in two bytes. */
  function U16(low: byte, high: byte): (n: nat)
    ensures n < 0x1_0000
  {
    low as nat + 256 * high as nat
  }

  lemma WordOfU16(low: byte, high: byte)
    ensures Word(U16(low, high)) == [low, high]
  {
  }

  function Concat(l: seq<Suite>): (s: seq<byte>)
    ensures |s| == 4 * |l|
  {
    if l == [] then [] else l[0] + Concat(l[1..])
  }

  function SuiteList(l: seq<Suite>): (s: seq<byte>)
    requires |l| < 0x1_0000
    ensures |s| == 2 + 4 * |l|
  {
    Word(|l|) + Concat(l)
  }

  function PmkidList(p: seq<byte>): (s: seq<byte>)
    requires |p| / 16 < 0x1_0000
    ensures |s| == 2 + |p|
  {
    Word(|p| / 16) + p
  }

  ghost function FromMgmt(f: Fields): seq<byte> {
    if f.mgmt.None? then [] else f.mgmt.value
  }

  ghost function FromPmkids(f: Fields): seq<byte>
    requires WellFormed(f)
  {
    if f.pmkids.None? then [] else PmkidList(f.pmkids.value) + FromMgmt(f)
  }

  ghost function FromCapabilities(f: Fields): seq<byte>
    requires WellFormed(f)
  {
    if f.capabilities.None? then [] else Word(f.capabilities.value) + FromPmkids(f)
  }

  ghost function FromAkms(f: Fields): seq<byte>
    requires WellFormed(f)
  {
    if f.akms.None? then [] else SuiteList(f.akms.value) + FromCapabilities(f)
  }

  ghost function FromPairwise(f: Fields): seq<byte>
    requires WellFormed(f)
  {
    if f.pairwise.None? then [] else SuiteList(f.pairwise.value) + FromAkms(f)
  }

  /** The fields as they stand in an element. */
  ghost function Encode(f: Fields): seq<byte>
    requires WellFormed(f)
  {
    if f.group.None? then [] else f.group.value + FromPairwise(f)
  }

  /** The fields of an element with one suite in each list and no key identifiers. */
  lemma WholeElement(g: Suite, p: Suite, a: Suite, low: byte, high: byte, m: Suite)
    ensures WellFormed(Fields(Some(g), Some([p]), Some([a]), Some(U16(low, high)), Some([]), Some(m)))
    ensures Encode(Fields(Some(g), Some([p]), Some([a]), Some(U16(low, high)), Some([]), Some(m))) ==
            g + (([1, 0] + p) + (([1, 0] + a) + ([low, high] + ([0, 0] + m))))
  {
    var f := Fields(Some(g), Some([p]), Some([a]), Some(U16(low, high)), Some([]), Some(m));
    OptionsOfElement(f, low, high, m);
    OneSuite(p);
    OneSuite(a);
    hide Word, U16, SuiteList, FromCapabilities;
  }

  lemma OptionsOfElement(f: Fields, low: byte, high: byte, m: Suite)
    requires WellFormed(f) && f.capabilities == Some(U16(low, high)) && f.pmkids == Some([]) && f.mgmt == Some(m)
    ensures FromCapabilities(f) == [low, high] + ([0, 0] + m)
  {
    WordOfU16(low, high);
    assert Word(0) == [0, 0] && Word(0) + [] == Word(0);
    hide Word, U16;
  }

  lemma OneSuite(p: Suite)
    ensures SuiteList([p]) == [1, 0] + p
  {
    assert [p][1..] == [] && p + [] == p;
  }

  // ---------------------------------------------------------------- taking one field

  function TakeSuite(s: seq<byte>): Option<(Suite, seq<byte>)> {
    if |s| < 4 then None else Some((s[..4], s[4..]))
  }

  function TakeWord(s: seq<byte>): Option<(nat, seq<byte>)> {
    if |s| < 2 then None else Some((U16(s[0], s[1]), s[2..]))
  }

  function Chunks(s: seq<byte>, n: nat): (l: seq<Suite>)
    requires |s| == 4 * n
    ensures |l| == n && Concat(l) == s
  {
    if n == 0 then [] else [s[..4]] + Chunks(s[4..], n - 1)
  }

  lemma SliceOfSlice(s: seq<byte>, a: nat, b: nat, low: nat, high: nat)
    requires a <= b <= |s| && low <= high <= b - a
    ensures s[a..b][low..high] == s[a + low..a + high]
  {
    assert forall k :: 0 <= k < high - low ==> s[a..b][low..high][k] == s[a + low..a + high][k];
  }

  lemma {:induction false} ChunkAt(s: seq<byte>, n: nat, i: nat)
    requires |s| == 4 * n && i < n
    ensures Chunks(s, n)[i] == s[4 * i..4 * i + 4]
  {
    if i > 0 {
      ChunkAt(s[4..], n - 1, i - 1);
      SliceOfSlice(s, 4, |s|, 4 * i - 4, 4 * i);
      assert s[4..|s|] == s[4..];
    }
  }

  function TakeSuites(s: seq<byte>): Option<(seq<Suite>, seq<byte>)> {
    if |s| < 2 then None
    else
      var n := U16(s[0], s[1]);
      if 2 + 4 * n > |s| then None else Some((Chunks(s[2..2 + 4 * n], n), s[2 + 4 * n..]))
  }

  function TakePmkids(s: seq<byte>): Option<(seq<byte>, seq<byte>)> {
    if |s| < 2 then None
    else
      var n := U16(s[0], s[1]);
      if 2 + 16 * n > |s| then None else Some((s[2..2 + 16 * n], s[2 + 16 * n..]))
  }

  lemma {:induction false} ConcatIsInjective(a: seq<Suite>, b: seq<Suite>)
    requires |a| == |b| && Concat(a) == Concat(b)
    ensures a == b
  {
    if a != [] {
      assert a[0] == Concat(a)[..4] == b[0] && Concat(a)[4..] == Concat(a[1..]);
      assert Concat(b)[4..] == Concat(b[1..]);
      ConcatIsInjective(a[1..], b[1..]);
      assert a == [a[0]] + a[1..] && b == [b[0]] + b[1..];
    }
  }

  lemma SuiteTaken(x: Suite, rest: seq<byte>)
    ensures TakeSuite(x + rest) == Some((x, rest))
  {
    assert (x + rest)[..4] == x && (x + rest)[4..] == rest;
  }

  lemma WordTaken(n: nat, rest: seq<byte>)
    requires n < 0x1_0000
    ensures TakeWord(Word(n) + rest) == Some((n, rest))
  {
    hide Word, U16;
    var s := Word(n) + rest;
    assert s[0] == Word(n)[0] && s[1] == Word(n)[1] && s[2..] == rest;
  }

  lemma SuitesTaken(l: seq<Suite>, rest: seq<byte>)
    requires |l| < 0x1_0000
    ensures TakeSuites(SuiteList(l) + rest) == Some((l, rest))
  {
    hide Word, U16, Concat, Chunks;
    var s := SuiteList(l) + rest;
    var n := |l|;
    assert s[0] == Word(n)[0] && s[1] == Word(n)[1];
    assert s[2..2 + 4 * n] == Concat(l) && s[2 + 4 * n..] == rest;
    ConcatIsInjective(Chunks(Concat(l), n), l);
  }

  lemma PmkidsTaken(p: seq<byte>, rest: seq<byte>)
    requires |p| % 16 == 0 && |p| / 16 < 0x1_0000
    ensures TakePmkids(PmkidList(p) + rest) == Some((p, rest))
  {
    hide Word, U16;
    var s := PmkidList(p) + rest;
    var n := |p| / 16;
    assert s[0] == Word(n)[0] && s[1] == Word(n)[1];
    assert s[2..2 + 16 * n] == p && s[2 + 16 * n..] == rest;
  }

  lemma SuitesPutBack(s: seq<byte>)
    requires TakeSuites(s).Some?
    ensures var (l, rest) := TakeSuites(s).value;
            |l| < 0x1_0000 && s == SuiteList(l) + rest
  {
    hide Word, U16, Concat, Chunks;
    WordOfU16(s[0], s[1]);
    assert s == [s[0], s[1]] + s[2..2 + 4 * U16(s[0], s[1])] + s[2 + 4 * U16(s[0], s[1])..];
  }

  lemma PmkidsPutBack(s: seq<byte>)
    requires TakePmkids(s).Some?
    ensures var (p, rest) := TakePmkids(s).value;
            |p| % 16 == 0 && |p| / 16 < 0x1_0000 && s == PmkidList(p) + rest
  {
    hide Word, U16;
    WordOfU16(s[0], s[1]);
    assert s == [s[0], s[1]] + s[2..2 + 16 * U16(s[0], s[1])] + s[2 + 16 * U16(s[0], s[1])..];
  }

  lemma WordPutBack(s: seq<byte>)
    requires TakeWord(s).Some?
    ensures var (n, rest) := TakeWord(s).value;
            n < 0x1_0000 && s == Word(n) + rest
  {
    hide Word, U16;
    WordOfU16(s[0], s[1]);
    assert s == [s[0], s[1]] + s[2..];
  }

  // ---------------------------------------------------------------- reading all fields

  const NOTHING := Fields(None, None, None, None, None, None)

  /** The fields read from a body, and the bytes that are left. */
  ghost function Reading(s: seq<byte>): (Fields, seq<byte>) {
    match TakeSuite(s)
    case None => (NOTHING, s)
    case Some((group, s1)) =>
      var f1 := NOTHING.(group := Some(group));
      match TakeSuites(s1)
      case None => (f1, s1)
      case Some((pairwise, s2)) =>
        var f2 := f1.(pairwise := Some(pairwise));
        match TakeSuites(s2)
        case None => (f2, s2)
        case Some((akms, s3)) => ReadingOptions(f2.(akms := Some(akms)), s3)
  }

  ghost function ReadingOptions(f3: Fields, s3: seq<byte>): (Fields, seq<byte>) {
    match TakeWord(s3)
    case None => (f3, s3)
    case Some((capabilities, s4)) =>
      var f4 := f3.(capabilities := Some(capabilities));
      match TakePmkids(s4)
      case None => (f4, s4)
      case Some((pmkids, s5)) =>
        var f5 := f4.(pmkids := Some(pmkids));
        match TakeSuite(s5)
        case None => (f5, s5)
        case Some((mgmt, s6)) => (f5.(mgmt := Some(mgmt)), s6)
  }

  /** No further field can be read from what is left after the last field present. */
  ghost predicate Exhausted(f: Fields, left: seq<byte>) {
    if f.group.None? then TakeSuite(left).None?
    else if f.pairwise.None? then TakeSuites(left).None?
    else if f.akms.None? then TakeSuites(left).None?
    else if f.capabilities.None? then TakeWord(left).None?
    else if f.pmkids.None? then TakePmkids(left).None?
    else f.mgmt.None? ==> TakeSuite(left).None?
  }

  lemma Regroup(a: seq<byte>, b: seq<byte>, c: seq<byte>)
    ensures (a + b) + c == a + (b + c)
  {
  }

  /** The reading loses nothing: fields put back in front of what is left give the body again. */
  lemma ReadingAccountsForAll(s: seq<byte>)
    ensures var (f, left) := Reading(s);
            WellFormed(f) && s == Encode(f) + left && Exhausted(f, left)
  {
    hide TakeSuites, TakeWord, TakePmkids, SuiteList, PmkidList, Word;
    var (f, left) := Reading(s);
    if TakeSuite(s).Some? {
      var s1 := TakeSuite(s).value.1;
      if TakeSuites(s1).Some? {
        SuitesPutBack(s1);
        var s2 := TakeSuites(s1).value.1;
        if TakeSuites(s2).Some? {
          SuitesPutBack(s2);
          var s3 := TakeSuites(s2).value.1;
          OptionsAccountForAll(Fields(f.group, f.pairwise, f.akms, None, None, None), s3);
          Regroup(SuiteList(f.akms.value), FromCapabilities(f), left);
        }
        Regroup(SuiteList(f.pairwise.value), FromAkms(f), left);
      }
      Regroup(f.group.value, FromPairwise(f), left);
    }
  }

  lemma OptionsAccountForAll(f3: Fields, s3: seq<byte>)
    requires WellFormed(f3) && f3.akms.Some? && f3.capabilities.None?
    ensures var (f, left) := ReadingOptions(f3, s3);
            && WellFormed(f) && s3 == FromCapabilities(f) + left && Exhausted(f, left)
            && f.group == f3.group && f.pairwise == f3.pairwise && f.akms == f3.akms
  {
    hide TakeWord, TakePmkids, PmkidList, Word;
    var (f, left) := ReadingOptions(f3, s3);
    if TakeWord(s3).Some? {
      WordPutBack(s3);
      var s4 := TakeWord(s3).value.1;
      if TakePmkids(s4).Some? {
        PmkidsPutBack(s4);
        Regroup(PmkidList(f.pmkids.value), FromMgmt(f), left);
      }
      Regroup(Word(f.capabilities.value), FromPmkids(f), left);
    }
  }

  /** Nothing else reads that way: any fields followed by bytes that cannot begin the next field are found. */
  lemma FieldsAreFound(f: Fields, left: seq<byte>)
    requires WellFormed(f) && Exhausted(f, left)
    ensures Reading(Encode(f) + left) == (f, left)
  {
    hide TakeSuites, TakeWord, TakePmkids, SuiteList, PmkidList, Word, TakeSuite;
    if f.group.None? {
      assert [] + left == left;
    } else {
      Regroup(f.group.value, FromPairwise(f), left);
      SuiteTaken(f.group.value, FromPairwise(f) + left);
      if f.pairwise.None? {
        assert [] + left == left;
      } else {
        Regroup(SuiteList(f.pairwise.value), FromAkms(f), left);
        SuitesTaken(f.pairwise.value, FromAkms(f) + left);
        if f.akms.None? {
          assert [] + left == left;
        } else {
          Regroup(SuiteList(f.akms.value), FromCapabilities(f), left);
          SuitesTaken(f.akms.value, FromCapabilities(f) + left);
          OptionsAreFound(f, left);
        }
      }
    }
  }

  lemma OptionsAreFound(f: Fields, left: seq<byte>)
    requires WellFormed(f) && f.akms.Some? && Exhausted(f, left)
    ensures ReadingOptions(Fields(f.group, f.pairwise, f.akms, None, None, None), FromCapabilities(f) + left) == (f, left)
  {
    hide TakeWord, TakePmkids, PmkidList, Word, TakeSuite;
    if f.capabilities.None? {
      assert [] + left == left;
    } else {
      Regroup(Word(f.capabilities.value), FromPmkids(f), left);
      WordTaken(f.capabilities.value, FromPmkids(f) + left);
      if f.pmkids.None? {
        assert [] + left == left;
      } else {
        Regroup(PmkidList(f.pmkids.value), FromMgmt(f), left);
        PmkidsTaken(f.pmkids.value, FromMgmt(f) + left);
        if f.mgmt.None? {
          assert [] + left == left;
        } else {
          SuiteTaken(f.mgmt.value, left);
        }
      }
    }
  }

  /** Reading is the inverse of encoding, for every body and every set of fields. */
  lemma ReadingInvertsEncoding(s: seq<byte>, f: Fields, left: seq<byte>)
    ensures Reading(s) == (f, left) <==> WellFormed(f) && s == Encode(f) + left && Exhausted(f, left)
  {
    hide Reading, Encode, WellFormed, Exhausted;
    ReadingAccountsForAll(s);
    if WellFormed(f) && s == Encode(f) + left && Exhausted(f, left) {
      FieldsAreFound(f, left);
    }
  }

  /** A well-formed element is read back with nothing left. */
  lemma RsnRoundTrip(f: Fields)
    requires WellFormed(f)
    ensures Reading(Encode(f)) == (f, [])
  {
    FieldsAreFound(f, []);
    assert Encode(f) + [] == Encode(f);
  }

  // ---------------------------------------------------------------- printing

  /** What is printed: a missing group suite stands for the default line, and so on. */
  datatype Printed = Printed(group: Option<Suite>, pairwise: Option<seq<Suite>>, akms: Option<seq<Suite>>,
                             capabilities: Option<nat>, pmkids: Option<nat>, mgmt: Option<Suite>, tail: seq<byte>)

  /**
   The lines for a reading.  Bytes left over are printed, except where the element ends before one of
   the first three fields: there at most three bytes go unmentioned.
   */
  ghost function LinesOf(f: Fields, left: seq<byte>): Printed {
    var ended := f.akms.None? && |left| < (if f.group.None? then 4 else 2);
    Printed(f.group, f.pairwise, f.akms, f.capabilities,
            if f.pmkids.Some? then Some(|f.pmkids.value| / 16) else None, f.mgmt, if ended then [] else left)
  }

  /** The loop over a suite list whose count has been checked. */
  method PrintSuites(data: seq<byte>, count: nat) returns (l: seq<Suite>)
    requires 2 + 4 * count <= |data|
    ensures l == Chunks(data[2..2 + 4 * count], count)
  {
    hide Chunks;
    l := [];
    ghost var body := data[2..2 + 4 * count];
    var i := 0;
    while i < count
      invariant 0 <= i <= count && |l| == i
      invariant forall k :: 0 <= k < i ==> l[k] == Chunks(body, count)[k]
    {
      ChunkAt(body, count, i);
      SliceOfSlice(data, 2, 2 + 4 * count, 4 * i, 4 * i + 4);
      l := l + [data[2 + 4 * i..2 + 4 * i + 4]];
      i := i + 1;
    }
  }

  /** The reading of one suite list, which occurs twice in `_print_rsn_ie`; a list that does not fit is left. */
  method PrintList(data: seq<byte>, len: byte) returns (l: Option<seq<Suite>>, data': seq<byte>, len': byte)
    requires |data| == len as int && len >= 2
    ensures |data'| == len' as int
    ensures match TakeSuites(data)
            case None => l == None && data' == data
            case Some((suites, rest)) => l == Some(suites) && data' == rest
  {
    hide U16, Chunks;
    var count := U16(data[0], data[1]);
    if 2 + count * 4 > len as int {
      return None, data, len;
    }
    var suites := PrintSuites(data, count);
    return Some(suites), data[2 + count * 4..], len - (2 + count * 4) as byte;
  }

  /**
   `_print_rsn_ie`.  The remaining length is a byte, and none of the subtractions from it wraps.
   */
  method PrintRsnIe(len0: byte, data0: seq<byte>, isOsen: bool) returns (version: Option<nat>, p: Printed)
    requires |data0| == len0 as int && (!isOsen ==> len0 >= 2)
    ensures version == if isOsen then None else Some(U16(data0[0], data0[1]))
    ensures var body := if isOsen then data0 else data0[2..];
            p == LinesOf(Reading(body).0, Reading(body).1)
  {
    hide U16, Chunks, ReadingOptions;
    var data, len := data0, len0;
    version := None;
    if !isOsen {
      version := Some(U16(data[0], data[1]));
      data, len := data[2..], len - 2;
    }
    p := Printed(None, None, None, None, None, None, []);
    if len < 4 {
      return;
    }
    p := p.(group := Some(data[..4]));
    data, len := data[4..], len - 4;
    if len < 2 {
      return;
    }
    var l;
    l, data, len := PrintList(data, len);
    if l.None? {
      p := p.(tail := data);
      return;
    }
    p := p.(pairwise := l);
    if len < 2 {
      return;
    }
    l, data, len := PrintList(data, len);
    if l.None? {
      p := p.(tail := data);
      return;
    }
    p := p.(akms := l);
    var capabilities, pmkids, mgmt, tail := PrintOptions(data, len);
    p := Printed(p.group, p.pairwise, p.akms, capabilities, pmkids, mgmt, tail);
  }

  /** The part after the suite lists, down to the `invalid` label. */
  method PrintOptions(data0: seq<byte>, len0: byte)
      returns (capabilities: Option<nat>, pmkids: Option<nat>, mgmt: Option<Suite>, tail: seq<byte>)
    requires |data0| == len0 as int
    ensures forall f3: Fields {:trigger ReadingOptions(f3, data0)} ::
              f3.akms.Some? && f3.capabilities.None? && f3.pmkids.None? && f3.mgmt.None? ==>
                var (f, left) := ReadingOptions(f3, data0);
                LinesOf(f, left) == Printed(f3.group, f3.pairwise, f3.akms, capabilities, pmkids, mgmt, tail)
  {
    hide U16;
    var data, len := data0, len0;
    capabilities, pmkids, mgmt := None, None, None;
    if len >= 2 {
      capabilities := Some(U16(data[0], data[1]));
      data, len := data[2..], len - 2;
    }
    if len >= 2 {
      var count := U16(data[0], data[1]);
      if len as int >= 2 + 16 * count {
        pmkids := Some(count);
        data, len := data[2 + 16 * count..], len - (2 + 16 * count) as byte;
      } else {
        return capabilities, pmkids, mgmt, data;
      }
    }
    if len >= 4 {
      mgmt := Some(data[..4]);
      data, len := data[4..], len - 4;
    }
    return capabilities, pmkids, mgmt, data;
  }
}
