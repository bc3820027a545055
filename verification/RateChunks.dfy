/**
 Sets of modulation and coding schemes: `parse_rate_chunk`, `setup_vht` and `setup_he`
 (wifi/iw/bitrate.c).  What `sscanf` reads from an argument is a parameter.
 */
module RateChunks {
  import opened CNumbers
  import opened Options

  const NSS_MAX := 8

  datatype Mode = VHT | HE

  function MaxMcs(mode: Mode): nat {
    if mode == HE then 11 else 9
  }

  /**
   What `sscanf` reads: the three numbers of "%u:%u-%u", if all are there; and the leading numbers of
   "%u:%u,%u,...", from a text that is not blank.
   */
  datatype Scanner = Scanner(range: string -> Option<(nat, nat, nat)>, list: (string, Mode) -> seq<nat>)

  /** There is nothing but white space. */
  predicate Blank(arg: string) {
    Spaces(arg) == |arg|
  }

  /** The numbers of a list, or nothing where `sscanf` returns EOF: where the text ends before the first number. */
  function Scanned(arg: string, mode: Mode, sc: Scanner): Option<seq<nat>> {
    if Blank(arg) then None else Some(sc.list(arg, mode))
  }

  /** The numbers from `first` up to but not including `end`. */
  function Range(first: nat, end: nat): set<nat>
    requires first <= end
  {
    if first == end then {} else Range(first, end - 1) + {end - 1}
  }

  lemma {:induction false} InRange(first: nat, end: nat, k: nat)
    requires first <= end
    ensures k in Range(first, end) <==> first <= k < end
    decreases end
  {
    if first < end {
      InRange(first, end - 1, k);
    }
  }

  /** The items of a list after the first, up to but not including number `end`. */
  function Items(l: seq<nat>, end: nat): set<nat>
    requires end <= |l|
  {
    set j | 1 <= j < end :: l[j]
  }

  /** What an argument stands for: a number of streams, and a set of indices. */
  function ChunkOf(arg: string, mode: Mode, sc: Scanner): Option<(nat, set<nat>)> {
    if '-' in arg then
      match sc.range(arg)
      case None => None
      case Some((nss, first, last)) =>
        if 1 <= nss <= NSS_MAX && first <= last <= MaxMcs(mode) then Some((nss, Range(first, last + 1))) else None
    else if Scanned(arg, mode, sc).None? then None
    else
      var l := Scanned(arg, mode, sc).value;
      if |l| >= 2 && 1 <= l[0] <= NSS_MAX && forall i :: 1 <= i < |l| ==> l[i] <= MaxMcs(mode)
      then Some((l[0], Items(l, |l|)))
      else None
  }

  // ---------------------------------------------------------------- bits of a 16-bit word

  function Mask(k: nat): bv16
    requires k < 16
  {
    (1 as bv16) << k
  }

  function And(x: bv16, y: bv16): bv16 {
    x & y
  }

  function Or(x: bv16, y: bv16): bv16 {
    x | y
  }

  predicate TestBit(x: bv16, k: nat)
    requires k < 16
  {
    And(x, Mask(k)) != 0
  }

  function Bits(x: bv16): set<nat> {
    set k: nat | k < 16 && TestBit(x, k)
  }

  lemma AndOfOr(x: bv16, y: bv16, m: bv16)
    ensures And(Or(x, y), m) == Or(And(x, m), And(y, m))
  {
  }

  lemma OrIsZero(x: bv16, y: bv16)
    ensures Or(x, y) == 0 <==> x == 0 && y == 0
  {
  }

  lemma OrBit(x: bv16, y: bv16, k: nat)
    requires k < 16
    ensures TestBit(Or(x, y), k) <==> TestBit(x, k) || TestBit(y, k)
  {
    hide And, Or, Mask;
    AndOfOr(x, y, Mask(k));
    OrIsZero(And(x, Mask(k)), And(y, Mask(k)));
  }

  lemma MasksAreApart(j: nat, k: nat)
    requires j < 16 && k < 16
    ensures TestBit(Mask(j), k) <==> j == k
  {
  }

  lemma NoBits()
    ensures Bits(0) == {}
  {
  }

  lemma BitsOfOr(x: bv16, y: bv16)
    ensures Bits(Or(x, y)) == Bits(x) + Bits(y)
  {
    hide And, Or, Mask;
    forall k: nat | k < 16
      ensures TestBit(Or(x, y), k) <==> TestBit(x, k) || TestBit(y, k)
    {
      OrBit(x, y, k);
    }
    hide TestBit, Or;
    assert forall k :: k in Bits(Or(x, y)) <==> k in Bits(x) + Bits(y);
  }

  lemma BitsOfMask(j: nat)
    requires j < 16
    ensures Bits(Mask(j)) == {j}
  {
    forall k: nat | k < 16
      ensures TestBit(Mask(j), k) <==> j == k
    {
      MasksAreApart(j, k);
    }
    hide TestBit, Mask;
  }

  // ---------------------------------------------------------------- one argument

  lemma BlankHasNoDash(arg: string)
    requires Blank(arg)
    ensures '-' !in arg
  {
    if arg != [] {
      BlankHasNoDash(arg[1..]);
    }
  }

  /**
   `parse_rate_chunk`.  A blank argument is not refused: EOF passes the test `count < 2`, for `count` is
   unsigned, and numbers that were never stored are used.
   */
  method ParseRateChunk(arg: string, mode: Mode, sc: Scanner) returns (ok: bool, nss: nat, mcs: bv16)
    requires !Blank(arg)
    ensures ok <==> ChunkOf(arg, mode, sc).Some?
    ensures ok ==> ChunkOf(arg, mode, sc) == Some((nss, Bits(mcs))) && 1 <= nss <= NSS_MAX
  {
    hide Bits, Mask, Or;
    nss, mcs := 0, 0;
    NoBits();
    if '-' in arg {
      var r := sc.range(arg);
      if r.None? {
        return false, nss, mcs;
      }
      var (inss, first, last) := r.value;
      if inss < 1 || inss > NSS_MAX {
        return false, nss, mcs;
      }
      if first > last {
        return false, nss, mcs;
      }
      if first > MaxMcs(mode) || last > MaxMcs(mode) {
        return false, nss, mcs;
      }
      nss := inss;
      var i := first;
      while i <= last
        invariant first <= i <= last + 1 && Bits(mcs) == Range(first, i)
      {
        BitsOfOr(mcs, Mask(i));
        BitsOfMask(i);
        mcs := Or(mcs, Mask(i));
        i := i + 1;
      }
      return true, nss, mcs;
    } else {
      var l := Scanned(arg, mode, sc).value;
      if |l| < 2 {
        return false, nss, mcs;
      }
      if l[0] < 1 || l[0] > NSS_MAX {
        return false, nss, mcs;
      }
      nss := l[0];
      var i := 1;
      assert Items(l, 1) == {};
      while i < |l|
        invariant 1 <= i <= |l| && Bits(mcs) == Items(l, i)
        invariant forall j :: 1 <= j < i ==> l[j] <= MaxMcs(mode)
      {
        if l[i] > MaxMcs(mode) {
          return false, nss, mcs;
        }
        BitsOfOr(mcs, Mask(l[i]));
        BitsOfMask(l[i]);
        mcs := Or(mcs, Mask(l[i]));
        assert Items(l, i + 1) == Items(l, i) + {l[i]};
        i := i + 1;
      }
      return true, nss, mcs;
    }
  }

  // ---------------------------------------------------------------- all arguments

  predicate AllChunks(args: seq<string>, mode: Mode, sc: Scanner) {
    forall a :: a in args ==> ChunkOf(a, mode, sc).Some?
  }

  /** No argument is blank up to the first that stands for nothing, which is the last one looked at. */
  predicate ReadToTheEnd(args: seq<string>, mode: Mode, sc: Scanner) {
    args == [] ||
    (!Blank(args[0]) && (ChunkOf(args[0], mode, sc).Some? ==> ReadToTheEnd(args[1..], mode, sc)))
  }

  /** That is: no blank argument has only arguments before it that stand for something. */
  lemma {:induction false} WhenReadToTheEnd(args: seq<string>, mode: Mode, sc: Scanner)
    ensures ReadToTheEnd(args, mode, sc) <==>
            forall i :: 0 <= i < |args| && AllChunks(args[..i], mode, sc) ==> !Blank(args[i])
  {
    hide ChunkOf, Blank;
    if args != [] {
      var tail := args[1..];
      WhenReadToTheEnd(tail, mode, sc);
      assert AllChunks(args[..0], mode, sc);
      forall i | 0 < i < |args|
        ensures AllChunks(args[..i], mode, sc) <==> ChunkOf(args[0], mode, sc).Some? && AllChunks(tail[..i - 1], mode, sc)
        ensures args[i] == tail[i - 1]
      {
        assert args[..i] == [args[0]] + tail[..i - 1];
      }
      assert forall i :: 0 <= i < |tail| ==> tail[i] == args[i + 1];
    }
  }

  lemma BlankIsNothing(arg: string, mode: Mode, sc: Scanner)
    ensures Blank(arg) ==> ChunkOf(arg, mode, sc).None?
  {
    if Blank(arg) {
      BlankHasNoDash(arg);
    }
  }

  /** Arguments that all stand for something are all read. */
  lemma {:induction false} GoodChunksAreRead(args: seq<string>, mode: Mode, sc: Scanner)
    requires AllChunks(args, mode, sc)
    ensures ReadToTheEnd(args, mode, sc)
  {
    if args != [] {
      assert args[0] in args && forall a :: a in args[1..] ==> a in args;
      BlankIsNothing(args[0], mode, sc);
      GoodChunksAreRead(args[1..], mode, sc);
    }
  }

  /** The indices that some argument names for `n + 1` streams. */
  function McsOf(args: set<string>, mode: Mode, sc: Scanner, n: nat): set<nat> {
    set a, k | a in args && ChunkOf(a, mode, sc).Some? && ChunkOf(a, mode, sc).value.0 == n + 1
               && k in ChunkOf(a, mode, sc).value.1 :: k
  }

  function ArgsOf(args: seq<string>): set<string> {
    set a | a in args
  }

  /**
   `setup_vht` and `setup_he`: the bitmap for each number of streams holds what the arguments name for
   it.  As the arguments enter as a set, neither their order nor repetition matters.
   */
  method Setup(txrate: array<bv16>, args: seq<string>, mode: Mode, sc: Scanner) returns (ok: bool)
    requires txrate.Length == NSS_MAX && ReadToTheEnd(args, mode, sc)
    modifies txrate
    ensures ok <==> AllChunks(args, mode, sc)
    ensures ok ==> forall n :: 0 <= n < NSS_MAX ==> Bits(txrate[n]) == McsOf(ArgsOf(args), mode, sc, n)
  {
    hide Bits, ChunkOf, McsOf, Or, Blank, ReadToTheEnd;
    NoBits();
    WhenReadToTheEnd(args, mode, sc);
    var j := 0;
    while j < NSS_MAX
      invariant 0 <= j <= NSS_MAX && forall n :: 0 <= n < j ==> txrate[n] == 0
    {
      txrate[j] := 0;
      j := j + 1;
    }
    var i := 0;
    assert args[..0] == [];
    NoArgs(mode, sc);
    assert ArgsOf([]) == {};
    while i < |args|
      invariant 0 <= i <= |args| && AllChunks(args[..i], mode, sc)
      invariant forall n :: 0 <= n < NSS_MAX ==> Bits(txrate[n]) == McsOf(ArgsOf(args[..i]), mode, sc, n)
    {
      var good, nss, mcs := ParseRateChunk(args[i], mode, sc);
      if !good {
        assert args[i] in args;
        return false;
      }
      assert args[..i + 1] == args[..i] + [args[i]];
      assert ArgsOf(args[..i + 1]) == ArgsOf(args[..i]) + {args[i]};
      forall n | 0 <= n < NSS_MAX
        ensures McsOf(ArgsOf(args[..i + 1]), mode, sc, n) ==
                McsOf(ArgsOf(args[..i]), mode, sc, n) + if nss == n + 1 then Bits(mcs) else {}
      {
        OneMoreArg(ArgsOf(args[..i]), args[i], mode, sc, n);
      }
      nss := nss - 1;
      BitsOfOr(txrate[nss], mcs);
      txrate[nss] := Or(txrate[nss], mcs);
      i := i + 1;
    }
    assert args[..i] == args;
    return true;
  }

  lemma NoArgs(mode: Mode, sc: Scanner)
    ensures forall n {:trigger McsOf({}, mode, sc, n)} :: McsOf({}, mode, sc, n) == {}
  {
  }

  lemma OneMoreArg(args: set<string>, a: string, mode: Mode, sc: Scanner, n: nat)
    requires ChunkOf(a, mode, sc).Some?
    ensures var (nss, bits) := ChunkOf(a, mode, sc).value;
            McsOf(args + {a}, mode, sc, n) == McsOf(args, mode, sc, n) + if nss == n + 1 then bits else {}
  {
    hide ChunkOf;
    var (nss, bits) := ChunkOf(a, mode, sc).value;
    forall k
      ensures k in McsOf(args + {a}, mode, sc, n) <==> k in McsOf(args, mode, sc, n) || (nss == n + 1 && k in bits)
    {
    }
  }

  // ---------------------------------------------------------------- what chunks and bitmaps are

  /** Index k stands for the bit of value 2^k. */
  lemma MaskValues()
    ensures Mask(0) == 1 && Mask(1) == 2 && Mask(2) == 4 && Mask(3) == 8 && Mask(4) == 16 && Mask(5) == 32
    ensures Mask(6) == 64 && Mask(7) == 128 && Mask(8) == 256 && Mask(9) == 512 && Mask(10) == 1024
    ensures Mask(11) == 2048
  {
  }

  /** A range names the indices from the first to the last: up to 9 for VHT and 11 for HE, for one to eight streams. */
  lemma RangeChunk(arg: string, mode: Mode, sc: Scanner, nss: nat, k: nat)
    requires '-' in arg
    ensures ChunkOf(arg, mode, sc).Some? <==>
            sc.range(arg).Some?
            && var (n, first, last) := sc.range(arg).value; 1 <= n <= 8 && first <= last <= (if mode.HE? then 11 else 9)
    ensures ChunkOf(arg, mode, sc).Some? ==>
              var (n, first, last) := sc.range(arg).value;
              ChunkOf(arg, mode, sc).value.0 == n && (k in ChunkOf(arg, mode, sc).value.1 <==> first <= k <= last)
  {
    if ChunkOf(arg, mode, sc).Some? {
      InRange(sc.range(arg).value.1, sc.range(arg).value.2 + 1, k);
    }
  }

  /** A list names its items after the first number, which is that of the streams. */
  lemma ListChunk(arg: string, mode: Mode, sc: Scanner, k: nat)
    requires '-' !in arg && !Blank(arg)
    ensures ChunkOf(arg, mode, sc).Some? <==>
            var l := sc.list(arg, mode);
            |l| >= 2 && 1 <= l[0] <= 8 && forall i :: 1 <= i < |l| ==> l[i] <= if mode.HE? then 11 else 9
    ensures ChunkOf(arg, mode, sc).Some? ==>
              var l := sc.list(arg, mode);
              && ChunkOf(arg, mode, sc).value.0 == l[0]
              && (k in ChunkOf(arg, mode, sc).value.1 <==> exists i :: 1 <= i < |l| && l[i] == k)
  {
  }

  /** The bitmap for `n + 1` streams has an index exactly when some argument for that many names it. */
  lemma McsOfIs(args: seq<string>, mode: Mode, sc: Scanner, n: nat, k: nat)
    ensures k in McsOf(ArgsOf(args), mode, sc, n) <==>
            exists i :: 0 <= i < |args| && ChunkOf(args[i], mode, sc).Some?
              && ChunkOf(args[i], mode, sc).value.0 == n + 1 && k in ChunkOf(args[i], mode, sc).value.1
  {
    hide ChunkOf;
  }
}
