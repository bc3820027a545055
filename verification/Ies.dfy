/**
 Information elements (section 9.4.2.1 of IEEE 802.11-2016): the walk that `print_ies` makes over a
 buffer (wifi/iw/scan.c).
 */
module Ies {
  import opened Bytes

  datatype Element = Element(id: byte, data: seq<byte>)

  predicate Encodable(e: Element) {
    |e.data| <= 255
  }

  predicate AllEncodable(es: seq<Element>) {
    forall i :: 0 <= i < |es| ==> Encodable(es[i])
  }

  function EncodeOne(e: Element): seq<byte>
    requires Encodable(e)
  {
    [e.id, |e.data| as byte] + e.data
  }

  function Encode(es: seq<Element>): seq<byte>
    requires AllEncodable(es)
  {
    if es == [] then [] else EncodeOne(es[0]) + Encode(es[1..])
  }

  /** The buffer begins with a whole element. */
  predicate StartsWhole(s: seq<byte>) {
    |s| >= 2 && |s| - 2 >= s[1] as int
  }

  function First(s: seq<byte>): (e: Element)
    requires StartsWhole(s)
    ensures Encodable(e)
  {
    Element(s[0], s[2..2 + s[1] as nat])
  }

  /** The elements of a buffer, up to the first that is cut short. */
  function ElementsOf(s: seq<byte>): (es: seq<Element>)
    ensures AllEncodable(es)
    decreases |s|
  {
    if StartsWhole(s) then [First(s)] + ElementsOf(s[2 + s[1] as nat..]) else []
  }

  /** What is left of a buffer after its elements. */
  function LeftOver(s: seq<byte>): seq<byte>
    decreases |s|
  {
    if StartsWhole(s) then LeftOver(s[2 + s[1] as nat..]) else s
  }

  /** What `print_ies` does with an element; `known` says which identifiers have a printer for the caller. */
  datatype Visit = Printer(e: Element) | Vendor(e: Element) | Extension(e: Element) | Dumped(e: Element) | Skipped(e: Element)

  const VENDOR_ID: byte := 221
  const EXTENSION_ID: byte := 255

  function Dispatch(e: Element, known: byte -> bool, unknown: bool): (v: Visit)
    ensures v.e == e
  {
    if known(e.id) then Printer(e)
    else if e.id == VENDOR_ID then Vendor(e)
    else if e.id == EXTENSION_ID then Extension(e)
    else if unknown then Dumped(e)
    else Skipped(e)
  }

  /** An element with no printer of its own is a vendor's, number 221, an extension, number 255, or unknown. */
  lemma WhoPrints(e: Element, known: byte -> bool, unknown: bool)
    ensures Dispatch(e, known, unknown).Printer? <==> known(e.id)
    ensures Dispatch(e, known, unknown).Vendor? <==> !known(e.id) && e.id as int == 221
    ensures Dispatch(e, known, unknown).Extension? <==> !known(e.id) && e.id as int == 255
    ensures Dispatch(e, known, unknown).Dumped? <==> !known(e.id) && e.id as int !in {221, 255} && unknown
  {
  }

  /** `print_ies`: the visits it makes, in order. */
  method PrintIes(ie: seq<byte>, known: byte -> bool, unknown: bool) returns (visits: seq<Visit>)
    ensures |visits| == |ElementsOf(ie)|
    ensures forall i :: 0 <= i < |visits| ==> visits[i] == Dispatch(ElementsOf(ie)[i], known, unknown)
  {
    hide ElementsOf;
    visits := [];
    var pos, ielen := 0, |ie|;
    ghost var es := ElementsOf(ie);
    assert ie[0..] == ie && es[0..] == es;
    while ielen >= 2 && ielen - 2 >= ie[pos + 1] as int
      invariant 0 <= ielen && pos + ielen == |ie|
      invariant |visits| <= |es| && es[|visits|..] == ElementsOf(ie[pos..])
      invariant forall i :: 0 <= i < |visits| ==> visits[i] == Dispatch(es[i], known, unknown)
      decreases ielen
    {
      var len := ie[pos + 1] as nat;
      var e := Element(ie[pos], ie[pos + 2..pos + 2 + len]);
      NextElement(ie, pos, es, |visits|);
      if known(ie[pos]) {
        visits := visits + [Printer(e)];
      } else if ie[pos] == VENDOR_ID {
        visits := visits + [Vendor(e)];
      } else if ie[pos] == EXTENSION_ID {
        visits := visits + [Extension(e)];
      } else if unknown {
        visits := visits + [Dumped(e)];
      } else {
        visits := visits + [Skipped(e)];
      }
      ielen := ielen - (len + 2);
      pos := pos + len + 2;
    }
    ElementsStep(ie[pos..]);
  }

  lemma NextElement(ie: seq<byte>, pos: nat, es: seq<Element>, k: nat)
    requires pos + 2 <= |ie| && |ie| - pos - 2 >= ie[pos + 1] as int && k <= |es| && es[k..] == ElementsOf(ie[pos..])
    ensures var len := ie[pos + 1] as nat;
            && k < |es| && es[k] == Element(ie[pos], ie[pos + 2..pos + 2 + len])
            && es[k + 1..] == ElementsOf(ie[pos + len + 2..])
  {
    hide ElementsOf;
    var rest := ie[pos..];
    ElementsStep(rest);
    assert rest[0] == ie[pos] && rest[1] == ie[pos + 1];
    assert rest[2 + ie[pos + 1] as nat..] == ie[pos + ie[pos + 1] as nat + 2..];
    assert es[k..][0] == es[k] && es[k..][1..] == es[k + 1..];
  }

  lemma FirstAndRest(s: seq<byte>)
    requires StartsWhole(s)
    ensures s == EncodeOne(First(s)) + s[2 + s[1] as nat..]
  {
  }

  lemma OneMoreEncoded(e: Element, es: seq<Element>)
    requires Encodable(e) && AllEncodable(es)
    ensures AllEncodable([e] + es) && Encode([e] + es) == EncodeOne(e) + Encode(es)
  {
    assert ([e] + es)[1..] == es;
  }

  lemma ElementsStep(s: seq<byte>)
    ensures StartsWhole(s) ==>
              var rest := s[2 + s[1] as nat..];
              ElementsOf(s) == [First(s)] + ElementsOf(rest) && LeftOver(s) == LeftOver(rest)
    ensures !StartsWhole(s) ==> ElementsOf(s) == [] && LeftOver(s) == s
  {
  }

  /** Nothing is lost or invented: a buffer is its elements, encoded, and what is left. */
  lemma {:induction false} ElementsAccountForAll(s: seq<byte>)
    ensures s == Encode(ElementsOf(s)) + LeftOver(s) && !StartsWhole(LeftOver(s))
    decreases |s|
  {
    hide ElementsOf, LeftOver, EncodeOne, First;
    ElementsStep(s);
    if StartsWhole(s) {
      var rest := s[2 + s[1] as nat..];
      ElementsAccountForAll(rest);
      FirstAndRest(s);
      OneMoreEncoded(First(s), ElementsOf(rest));
      hide Encode;
      var e, tail, left := EncodeOne(First(s)), Encode(ElementsOf(rest)), LeftOver(rest);
      assert e + (tail + left) == (e + tail) + left;
    } else {
      assert [] + s == s;
    }
  }

  lemma FirstOfEncoded(e: Element, rest: seq<byte>)
    requires Encodable(e)
    ensures var s := EncodeOne(e) + rest;
            StartsWhole(s) && First(s) == e && s[2 + s[1] as nat..] == rest
  {
    var s := EncodeOne(e) + rest;
    assert s[0] == e.id && s[1] as int == |e.data|;
    assert First(s).data == e.data;
    assert s[2 + s[1] as nat..] == rest;
  }

  /** That is the only way to read it: any elements followed by something cut short are found. */
  lemma {:induction false} ElementsAreFound(es: seq<Element>, tail: seq<byte>)
    requires AllEncodable(es) && !StartsWhole(tail)
    ensures ElementsOf(Encode(es) + tail) == es && LeftOver(Encode(es) + tail) == tail
  {
    hide StartsWhole, EncodeOne, First;
    if es == [] {
      assert [] + tail == tail;
    } else {
      var rest := Encode(es[1..]) + tail;
      ElementsAreFound(es[1..], tail);
      assert Encode(es) + tail == EncodeOne(es[0]) + rest;
      FirstOfEncoded(es[0], rest);
      assert [es[0]] + es[1..] == es;
    }
  }

  /** An encoding is read back whole. */
  lemma ElementsRoundTrip(es: seq<Element>)
    requires AllEncodable(es)
    ensures ElementsOf(Encode(es)) == es && LeftOver(Encode(es)) == []
  {
    ElementsAreFound(es, []);
    assert Encode(es) + [] == Encode(es);
  }
}
