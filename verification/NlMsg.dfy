/**
 The message under construction: `nla_reserve`, `nla_put` and nesting (wifi/libnl-tiny/attr.c,
 include/netlink/attr.h), writing the message buffer in place.
 */
module NlMsg {
  import opened Bytes
  import opened NlAttr
  import opened Options

  const TWO16 := 0x1_0000
  const TWO32 := 0x1_0000_0000
  const INT_MAX := 0x7FFF_FFFF

  /**
   The room check of `nla_reserve`, in 32-bit unsigned arithmetic: the new length is compared after
   the old length has been added to it once more.
   */
  predicate Accepts(len: nat, attrlen: nat, size: nat) {
    (Align(len) + Align(HDRLEN + attrlen) + len) % TWO32 <= size
  }

  /** What the function documents: there is sufficient space for the attribute. */
  predicate Fits(len: nat, attrlen: nat, size: nat) {
    Align(len) + Align(HDRLEN + attrlen) <= size
  }

  /** Lengths with which `tlen`, an `int`, does not overflow. */
  predicate Sane(size: nat) {
    size <= 0x7FFE_0000
  }

  /** Lengths with which the 32-bit sum of the room check does not wrap around. */
  predicate NoWrap(size: nat, attrlen: nat) {
    2 * size + attrlen + 16 <= TWO32
  }

  /** What is accepted fits, so that nothing is written outside the message. */
  predicate WritesInside(len: nat, attrlen: nat, size: nat) {
    Accepts(len, attrlen, size) ==> Fits(len, attrlen, size)
  }

  /** That fails exactly where the sum wraps around to a number that the message could hold. */
  lemma WhenWritesStayInside(len: nat, attrlen: nat, size: nat)
    requires len <= size && Sane(size) && attrlen <= INT_MAX - HDRLEN - 3
    ensures var sum := Align(len) + Align(HDRLEN + attrlen) + len;
            WritesInside(len, attrlen, size) <==> sum < TWO32 || sum > TWO32 + size
  {
    hide Align;
    var sum := Align(len) + Align(HDRLEN + attrlen) + len;
    if sum < TWO32 {
      assert sum % TWO32 == sum;
    } else {
      assert sum < 2 * TWO32 && sum % TWO32 == sum - TWO32;
    }
  }

  /** An accepted attribute fits. */
  lemma AcceptedFits(len: nat, attrlen: nat, size: nat)
    requires len <= size && NoWrap(size, attrlen)
    requires Accepts(len, attrlen, size)
    ensures Fits(len, attrlen, size)
  {
  }

  /**
   The converse fails as soon as the message is more than about half full: the check and the
   documentation agree exactly when there is no room at all, or room to spare for a second copy of
   what is already there.
   */
  lemma WhenTheRoomCheckIsExact(len: nat, attrlen: nat, size: nat)
    requires len <= size && NoWrap(size, attrlen)
    ensures (Accepts(len, attrlen, size) <==> Fits(len, attrlen, size))
       <==> (size - len < Align(HDRLEN + attrlen) + (Align(len) - len) ||
             size - len >= Align(HDRLEN + attrlen) + Align(len))
  {
  }

  /** A default-sized message of 2048 bytes refuses a flag although 2048 bytes are free. */
  lemma RefusedWithHalfTheMessageFree()
    ensures Fits(2048, 0, 4096) && !Accepts(2048, 0, 4096)
  {
  }

  // ---------------------------------------------------------------- runs of nla_put, on byte strings

  /** The message bytes, the unused alignment gap at their end included, after one `nla_put`. */
  datatype PutResult = PutResult(ok: bool, bytes: seq<byte>)

  function Put(m: seq<byte>, size: nat, a: Attr): (r: PutResult)
    requires |m| % 4 == 0
    ensures |r.bytes| % 4 == 0
  {
    if Accepts(|m|, |a.payload|, size) then
      var e := Encode(a);
      StaysAligned(|m|, |e|);
      PutResult(true, m + e)
    else PutResult(false, m)
  }

  lemma StaysAligned(m: nat, n: nat)
    requires m % 4 == 0 && n % 4 == 0
    ensures (m + n) % 4 == 0
  {
  }

  /** A run of `nla_put` calls that goes on after a refusal. */
  function PutAll(m: seq<byte>, size: nat, attrs: seq<Attr>): (r: seq<byte>)
    requires |m| % 4 == 0
    ensures |r| % 4 == 0
  {
    if attrs == [] then m
    else Put(PutAll(m, size, attrs[..|attrs| - 1]), size, attrs[|attrs| - 1]).bytes
  }

  /** The attributes whose `nla_put` succeeded. */
  function Accepted(m: seq<byte>, size: nat, attrs: seq<Attr>): seq<Attr>
    requires |m| % 4 == 0
  {
    if attrs == [] then []
    else
      var init, a := attrs[..|attrs| - 1], attrs[|attrs| - 1];
      Accepted(m, size, init) + (if Put(PutAll(m, size, init), size, a).ok then [a] else [])
  }

  lemma {:induction false} AcceptedAreAmongThem(m: seq<byte>, size: nat, attrs: seq<Attr>)
    requires |m| % 4 == 0
    ensures forall a :: a in Accepted(m, size, attrs) ==> a in attrs
  {
    if attrs != [] {
      AcceptedAreAmongThem(m, size, attrs[..|attrs| - 1]);
    }
  }

  lemma {:induction false} PutAllAppends(m: seq<byte>, size: nat, attrs: seq<Attr>)
    requires |m| % 4 == 0 && |m| <= size && Sane(size)
    requires forall a :: a in attrs ==> Encodable(a)
    ensures PutAll(m, size, attrs) == m + EncodeAll(Accepted(m, size, attrs))
    ensures |PutAll(m, size, attrs)| <= size
  {
    hide Encode, Accepts, Align;
    if attrs == [] {
    } else {
      var init, a := attrs[..|attrs| - 1], attrs[|attrs| - 1];
      PutAllAppends(m, size, init);
      var now := PutAll(m, size, init);
      assert Encodable(a);
      if Put(now, size, a).ok {
        AcceptedFits(|now|, |a.payload|, size);
        EncodeAppend(Accepted(m, size, init), a);
        assert now + Encode(a) == m + (EncodeAll(Accepted(m, size, init)) + Encode(a));
      } else {
        assert Accepted(m, size, attrs) == Accepted(m, size, init);
      }
    }
  }

  /**
   From any aligned message, any run of `nla_put` calls leaves the earlier bytes alone, stays within
   the message, and appends a region that is walked as exactly the accepted attributes.
   */
  lemma PutsRoundTrip(m: seq<byte>, size: nat, attrs: seq<Attr>)
    requires |m| % 4 == 0 && |m| <= size && Sane(size)
    requires forall a :: a in attrs ==> Encodable(a)
    ensures var r := PutAll(m, size, attrs);
            && m <= r && |r| % 4 == 0 && |r| <= size
            && var region := r[|m|..];
               StaysInside(region, 0) && AttrsAt(region, 0) == Accepted(m, size, attrs) && Leftover(region, 0) == 0
  {
    var kept := Accepted(m, size, attrs);
    PutAllAppends(m, size, attrs);
    AcceptedAreAmongThem(m, size, attrs);
    WalkEncoding(kept);
    assert PutAll(m, size, attrs)[|m|..] == EncodeAll(kept);
  }

  // ---------------------------------------------------------------- the message buffer

  /** A header written at `p`. */
  function Headed(s: seq<byte>, p: nat, size: nat, attrtype: int): (r: seq<byte>)
    requires p + HDRLEN <= |s|
    ensures |r| == |s|
  {
    s[..p] + Le16(size % TWO16) + Le16(attrtype % TWO16) + s[p + HDRLEN..]
  }

  /** The padding zeroed behind what the length field at `p` says. */
  function Padded(s: seq<byte>, p: nat, size: nat): (r: seq<byte>)
    requires p + Align(size) <= |s|
    ensures |r| == |s|
  {
    var end, pad := p + size % TWO16, Align(size) - size;
    s[..end] + Padding(pad) + s[end + pad..]
  }

  lemma IsHeaded(s: seq<byte>, r: seq<byte>, p: nat, size: nat, attrtype: int)
    requires p + HDRLEN <= |s| == |r|
    requires var len, typ := Le16(size % TWO16), Le16(attrtype % TWO16);
             r[p] == len[0] && r[p + 1] == len[1] && r[p + 2] == typ[0] && r[p + 3] == typ[1]
    requires forall i :: 0 <= i < p || p + HDRLEN <= i < |s| ==> r[i] == s[i]
    ensures r == Headed(s, p, size, attrtype)
  {
    hide Le16;
  }

  lemma IsPadded(s: seq<byte>, r: seq<byte>, p: nat, size: nat)
    requires p + Align(size) <= |s| == |r|
    requires var end, pad := p + size % TWO16, Align(size) - size;
             forall i :: 0 <= i < |s| ==> r[i] == if end <= i < end + pad then 0 else s[i]
    ensures r == Padded(s, p, size)
  {
    hide Align;
  }

  /** What is reserved leaves the message before it alone, and for short payloads is all but the payload. */
  lemma ReservedIs(s: seq<byte>, p: nat, n: nat, attrtype: int)
    requires p + Align(HDRLEN + n) <= |s|
    ensures var r := Padded(Headed(s, p, HDRLEN + n, attrtype), p, HDRLEN + n);
            && (HDRLEN + n <= 0xFFFF ==>
                  && r[p..p + HDRLEN] == Le16(HDRLEN + n) + Le16(attrtype % TWO16)
                  && r[p + HDRLEN + n..p + Align(HDRLEN + n)] == Padding(Align(HDRLEN + n) - (HDRLEN + n)))
            && r[..p] == s[..p]
  {
    hide Le16, Align;
    var h := Headed(s, p, HDRLEN + n, attrtype);
    assert h[..p] == s[..p] && h[p..p + HDRLEN] == Le16((HDRLEN + n) % TWO16) + Le16(attrtype % TWO16);
    hide Headed;
    var r, size := Padded(h, p, HDRLEN + n), HDRLEN + n;
    assert r[..p] == h[..p];
    if size <= 0xFFFF {
      assert size % TWO16 == size;
      assert r[p..p + HDRLEN] == h[p..p + HDRLEN];
      assert r[p + size..p + Align(size)] == Padding(Align(size) - size);
    }
  }

  /** A payload copied into what is reserved. */
  lemma FilledIs(before: seq<byte>, now: seq<byte>, s: seq<byte>, p: nat, attrtype: int, data: seq<byte>, end: nat)
    requires end == p + Align(HDRLEN + |data|) <= |now| && |before| == |now|
    requires now[..p] == before[..p]
    requires s == now[..p + HDRLEN] + data + now[p + HDRLEN + |data|..]
    requires HDRLEN + |data| <= 0xFFFF ==>
               && now[p..p + HDRLEN] == Le16(HDRLEN + |data|) + Le16(attrtype % TWO16)
               && now[p + HDRLEN + |data|..end] == Padding(Align(HDRLEN + |data|) - (HDRLEN + |data|))
    ensures s[..end][..p] == before[..p] && s[..end][p + HDRLEN..p + HDRLEN + |data|] == data
    ensures HDRLEN + |data| <= 0xFFFF ==> s[..end] == before[..p] + Encode(Attr(attrtype % TWO16, data))
  {
    hide Le16, Padding, Align;
    var q := p + HDRLEN;
    assert s[..end] == now[..q] + data + now[q + |data|..end];
    assert now[..q] == now[..p] + now[p..q];
    if HDRLEN + |data| <= 0xFFFF {
      var len, typ, pad := Le16(HDRLEN + |data|), Le16(attrtype % TWO16), now[q + |data|..end];
      assert before[..p] + (len + typ) + data + pad == before[..p] + (len + typ + data + pad);
    }
  }

  /** `struct nl_msg` with the buffer it owns; `nmSize` is the buffer's length. */
  class Message {
    const buf: array<byte>
    var nlmsgLen: nat

    ghost predicate Valid()
      reads this
    {
      nlmsgLen <= buf.Length && Sane(buf.Length)
    }

    ghost function Bytes(): seq<byte>
      requires Valid()
      reads this, buf
    {
      buf[..nlmsgLen]
    }

    constructor (bytes: seq<byte>, size: nat)
      requires |bytes| <= size && Sane(size)
      ensures Valid() && fresh(buf) && buf.Length == size && Bytes() == bytes
    {
      buf := new byte[size](i => if 0 <= i < |bytes| then bytes[i] else 0);
      nlmsgLen := |bytes|;
      new;
      assert buf[..|bytes|] == bytes;
    }

    /**
     `nla_reserve`: the header and the zeroed padding.  The payload bytes in between keep whatever
     they held.  On refusal nothing is written.  The length field has 16 bits, and the padding is zeroed
     where that field says the payload ends, which for longer payloads is somewhere else.
     */
    method Reserve(attrtype: int, attrlen: nat) returns (nla: Option<nat>)
      requires Valid() && attrlen <= INT_MAX - HDRLEN - 3 && WritesInside(nlmsgLen, attrlen, buf.Length)
      modifies this, buf
      ensures Valid()
      ensures nla.Some? == Accepts(old(nlmsgLen), attrlen, buf.Length)
      ensures nla.None? ==> nlmsgLen == old(nlmsgLen) && buf[..] == old(buf[..])
      ensures nla.Some? ==> nla.value == Align(old(nlmsgLen)) && nlmsgLen == nla.value + Align(HDRLEN + attrlen)
      ensures nla.Some? ==>
                buf[..] == Padded(Headed(old(buf[..]), nla.value, HDRLEN + attrlen, attrtype), nla.value, HDRLEN + attrlen)
    {
      hide Headed, Padded, Padding, Le16, Align;
      var size := HDRLEN + attrlen;
      var tlen := Align(nlmsgLen) + Align(size);
      if (tlen + nlmsgLen) % TWO32 > buf.Length {
        return None;
      }
      var p := Align(nlmsgLen);
      var short := size % TWO16;
      var len, typ := Le16(short), Le16(attrtype % TWO16);
      buf[p + 2], buf[p + 3] := typ[0], typ[1];
      buf[p], buf[p + 1] := len[0], len[1];
      ghost var headed := buf[..];
      IsHeaded(old(buf[..]), headed, p, size, attrtype);
      forall i | p + short <= i < p + short + (Align(size) - size) {
        buf[i] := 0;
      }
      IsPadded(headed, buf[..], p, size);
      nlmsgLen := tlen;
      return Some(p);
    }

    /** `nla_put`; what it appends for longer payloads has the right size but not the encoding. */
    method PutAttr(attrtype: int, data: seq<byte>) returns (r: int)
      requires Valid() && |data| <= INT_MAX - HDRLEN - 3 && WritesInside(nlmsgLen, |data|, buf.Length)
      modifies this, buf
      ensures Valid()
      ensures r == (if Accepts(old(nlmsgLen), |data|, buf.Length) then 0 else -5)
      ensures r != 0 ==> nlmsgLen == old(nlmsgLen) && buf[..] == old(buf[..])
      ensures r == 0 ==>
                var p := Align(old(nlmsgLen));
                && |Bytes()| == p + Align(HDRLEN + |data|) && Bytes()[..p] == old(buf[..Align(nlmsgLen)])
                && Bytes()[p + HDRLEN..p + HDRLEN + |data|] == data
      ensures r == 0 && HDRLEN + |data| <= 0xFFFF ==>
                Bytes() == old(buf[..Align(nlmsgLen)]) + Encode(Attr(attrtype % TWO16, data))
    {
      hide Le16, Accepts, Fits, Sane, Align, Padding, Padded, Headed, Encode;
      var nla := Reserve(attrtype, |data|);
      if nla.None? {
        return -5;
      }
      var p := nla.value;
      var q := p + HDRLEN;
      ghost var now := buf[..];
      ReservedIs(old(buf[..]), p, |data|, attrtype);
      Copy(q, data);
      ghost var end := nlmsgLen;
      FilledIs(old(buf[..]), now, buf[..], p, attrtype, data, end);
      return 0;
    }

    /** `memcpy` into the buffer. */
    method Copy(q: nat, data: seq<byte>)
      requires q + |data| <= buf.Length
      modifies buf
      ensures buf[..] == old(buf[..q]) + data + old(buf[q + |data|..])
    {
      forall i | 0 <= i < |data| {
        buf[q + i] := data[i];
      }
    }

    /** On an aligned message `nla_put` is `Put`. */
    method PutAligned(attrtype: int, data: seq<byte>) returns (r: int)
      requires Valid() && nlmsgLen % 4 == 0 && HDRLEN + |data| <= 0xFFFF
      modifies this, buf
      ensures Valid() && nlmsgLen % 4 == 0
      ensures PutResult(r == 0, Bytes()) == Put(old(Bytes()), buf.Length, Attr(attrtype % TWO16, data))
    {
      hide Encode, Accepts;
      assert Align(nlmsgLen) == nlmsgLen;
      if Accepts(nlmsgLen, |data|, buf.Length) {
        AcceptedFits(nlmsgLen, |data|, buf.Length);
      }
      r := PutAttr(attrtype, data);
    }

    /** `nla_nest_end`: the container's length field now covers what was put since `start`. */
    method NestEnd(start: nat)
      requires Valid() && start + HDRLEN <= nlmsgLen && nlmsgLen % 4 == 0
      modifies buf
      ensures Bytes() == old(buf[..start]) + Le16((nlmsgLen - start) % 0x1_0000) + old(buf[start + 2..nlmsgLen])
    {
      var len := Le16((nlmsgLen - start) % 0x1_0000);
      buf[start], buf[start + 1] := len[0], len[1];
    }

    /** A run of `nla_put` calls, as a caller makes them, is `PutAll`. */
    method PutRun(attrs: seq<Attr>)
      requires Valid() && nlmsgLen % 4 == 0 && forall a :: a in attrs ==> Encodable(a)
      modifies this, buf
      ensures Valid() && nlmsgLen % 4 == 0
      ensures Bytes() == PutAll(old(Bytes()), buf.Length, attrs)
    {
      hide Accepts, Sane, Encode;
      ghost var before := Bytes();
      var i := 0;
      assert attrs[..0] == [];
      while i < |attrs|
        invariant 0 <= i <= |attrs| && Valid() && nlmsgLen % 4 == 0
        invariant Bytes() == PutAll(before, buf.Length, attrs[..i])
      {
        assert attrs[i] in attrs && attrs[..i + 1][..i] == attrs[..i];
        var _ := PutAligned(attrs[i].rawType, attrs[i].payload);
        i := i + 1;
      }
      assert attrs[..i] == attrs;
    }

    /** `nla_nest_start`, a run of puts, and `nla_nest_end`: the region appended is that of a nest. */
    method PutNest(attrtype: nat, attrs: seq<Attr>) returns (ok: bool)
      requires Valid() && nlmsgLen % 4 == 0 && attrtype <= 0xFFFF && forall a :: a in attrs ==> Encodable(a)
      modifies this, buf
      ensures Valid() && nlmsgLen % 4 == 0
      ensures ok == Accepts(old(nlmsgLen), 0, buf.Length)
      ensures !ok ==> Bytes() == old(Bytes())
      ensures ok ==>
                var start := old(Bytes()) + Encode(Attr(attrtype, []));
                Bytes() == old(Bytes()) + NestRegion(attrtype, EncodeAll(Accepted(start, buf.Length, attrs)))
    {
      hide Accepts, Encode, EncodeAll, NestRegion, Accepted, PutAll;
      var start := nlmsgLen;
      ghost var before := Bytes();
      var r := PutAligned(attrtype, []);
      if r != 0 {
        return false;
      }
      ghost var begun := before + Encode(Attr(attrtype, []));
      PutRun(attrs);
      ghost var inner := EncodeAll(Accepted(begun, buf.Length, attrs));
      PutAllAppends(begun, buf.Length, attrs);
      ghost var now := Bytes();
      RegionOfNest(before, attrtype, inner);
      assert buf[..start] == now[..start] && buf[start + 2..nlmsgLen] == now[start + 2..];
      NestEnd(start);
      return true;
    }
  }

  lemma RegionOfNest(before: seq<byte>, attrtype: nat, inner: seq<byte>)
    requires attrtype <= 0xFFFF
    ensures |Encode(Attr(attrtype, []))| == HDRLEN
    ensures var s, start := before + Encode(Attr(attrtype, [])) + inner, |before|;
            before + NestRegion(attrtype, inner) == s[..start] + Le16((|s| - start) % 0x1_0000) + s[start + 2..]
  {
    hide Le16;
  }

  // ---------------------------------------------------------------- nesting

  /** The region a nest leaves: an empty attribute, then the inner ones, with its length corrected. */
  function NestRegion(rawType: nat, inner: seq<byte>): seq<byte> {
    Le16((HDRLEN + |inner|) % 0x1_0000) + Encode(Attr(rawType, []))[2..] + inner
  }

  /** Closing a nest makes it one attribute whose payload is the region built since it was opened. */
  lemma NestIsOneAttribute(rawType: nat, inner: seq<byte>)
    requires rawType <= 0xFFFF && |inner| % 4 == 0
    requires HDRLEN + |inner| <= 0xFFFF
    ensures NestRegion(rawType, inner) == Encode(Attr(rawType, inner))
  {
  }

  /**
   A nest is walked as the attribute it was opened as, holding the attributes put inside it, exactly
   when its length fits the 16-bit field.
   */
  lemma NestRoundTrip(rawType: nat, attrs: seq<Attr>)
    requires rawType <= 0xFFFF && forall a :: a in attrs ==> Encodable(a)
    ensures var inner := EncodeAll(attrs);
            StaysInside(inner, 0) && AttrsAt(inner, 0) == attrs && Leftover(inner, 0) == 0
    ensures var inner := EncodeAll(attrs);
            var s := NestRegion(rawType, inner);
            (StaysInside(s, 0) && AttrsAt(s, 0) == [Attr(rawType, inner)]) <==> HDRLEN + |inner| <= 0xFFFF
  {
    var inner := EncodeAll(attrs);
    var s := NestRegion(rawType, inner);
    WalkEncoding(attrs);
    if HDRLEN + |inner| <= 0xFFFF {
      NestIsOneAttribute(rawType, inner);
      OneAttributeWalk(Attr(rawType, inner));
    } else {
      ShortPayloads(s);
    }
  }

  /**
   What `nla_put` has appended is walked as its attribute if and only if the length fits the 16-bit field;
   longer payloads are accepted all the same.
   */
  lemma WhenAPutIsWalked(region: seq<byte>, a: Attr)
    requires a.rawType <= 0xFFFF && |region| == Align(HDRLEN + |a.payload|)
    requires HDRLEN + |a.payload| <= 0xFFFF ==> region == Encode(a)
    ensures StaysInside(region, 0) && AttrsAt(region, 0) == [a] <==> HDRLEN + |a.payload| <= 0xFFFF
  {
    if HDRLEN + |a.payload| <= 0xFFFF {
      OneAttributeWalk(a);
    } else {
      ShortPayloads(region);
    }
  }

  lemma OneAttributeWalk(a: Attr)
    requires Encodable(a)
    ensures StaysInside(Encode(a), 0) && AttrsAt(Encode(a), 0) == [a]
  {
    WalkEncoding([a]);
    assert [a][1..] == [];
    assert EncodeAll([a]) == Encode(a) + EncodeAll([]);
  }

  /** No walked attribute has a payload longer than its header can say. */
  lemma ShortPayloads(s: seq<byte>)
    requires |s| >= HDRLEN
    ensures StaysInside(s, 0) && AttrsAt(s, 0) != [] ==> HDRLEN + |AttrsAt(s, 0)[0].payload| <= 0xFFFF
  {
    if StaysInside(s, 0) && Ok(s, 0) {
      assert AttrsAt(s, 0)[0] == AttrAt(s, 0);
    }
  }
}
