/**
 The constants of SHA-256 are what FIPS 180-4 says they are: K holds the first 32 bits of the
 fractional parts of the cube roots of the first sixty-four primes (section 4.2.2), H0 those of the
 square roots of the first eight (section 5.3.3).
 */
module Sha256Constants {
  import opened Fips180
  import opened Primes

  const TWO32 := 0x1_0000_0000

  /** `x` is the cube root of `p`, cut off after 32 binary places, as a multiple of 2^-32. */
  predicate IsCubeRoot(p: nat, x: nat) {
    x * x * x <= p * TWO32 * TWO32 * TWO32 < (x + 1) * (x + 1) * (x + 1)
  }

  predicate IsSquareRoot(p: nat, x: nat) {
    x * x <= p * TWO32 * TWO32 < (x + 1) * (x + 1)
  }

  ghost predicate IsCubeRootFraction(p: nat, k: nat) {
    exists x: nat :: IsCubeRoot(p, x) && k == x % TWO32
  }

  ghost predicate IsSquareRootFraction(p: nat, k: nat) {
    exists x: nat :: IsSquareRoot(p, x) && k == x % TWO32
  }

  function IntegerCubeRoot(p: nat): nat {
    if p < 8 then 1 else if p < 27 then 2 else if p < 64 then 3 else if p < 125 then 4 else if p < 216 then 5 else 6
  }

  predicate IsRoundConstant(p: nat, k: bv64) {
    k as int < TWO32 && IsCubeRoot(p, IntegerCubeRoot(p) * TWO32 + k as int)
  }

  /** The entries from `i` up to `n` carry the cube roots of their primes. */
  predicate RoundConstantsFor(ps: seq<nat>, ks: seq<bv64>, i: nat, n: nat)
    requires i <= n <= |ps| && n <= |ks|
    decreases n - i
  {
    i == n || (IsRoundConstant(ps[i], ks[i]) && RoundConstantsFor(ps, ks, i + 1, n))
  }

  lemma Row0()
    ensures RoundConstantsFor(PRIMES, K, 0, 8)
  {
  }

  lemma Row1()
    ensures RoundConstantsFor(PRIMES, K, 8, 16)
  {
  }

  lemma Row2()
    ensures RoundConstantsFor(PRIMES, K, 16, 24)
  {
  }

  lemma Row3()
    ensures RoundConstantsFor(PRIMES, K, 24, 32)
  {
  }

  lemma Row4()
    ensures RoundConstantsFor(PRIMES, K, 32, 40)
  {
  }

  lemma Row5()
    ensures RoundConstantsFor(PRIMES, K, 40, 48)
  {
  }

  lemma Row6()
    ensures RoundConstantsFor(PRIMES, K, 48, 56)
  {
  }

  lemma Row7()
    ensures RoundConstantsFor(PRIMES, K, 56, 64)
  {
  }

  lemma CubeIsMonotone(x: nat, y: nat)
    requires x <= y
    ensures x * x * x <= y * y * y
  {
    assert x * x <= y * y;
    assert (x * x) * x <= (y * y) * x <= (y * y) * y;
  }

  lemma CubeRootIsUnique(p: nat, x: nat, y: nat)
    requires IsCubeRoot(p, x) && IsCubeRoot(p, y)
    ensures x == y
  {
    if x < y {
      CubeIsMonotone(x + 1, y);
    } else if y < x {
      CubeIsMonotone(y + 1, x);
    }
  }

  lemma RoundConstantAt(ps: seq<nat>, ks: seq<bv64>, i: nat, lo: nat, hi: nat)
    requires lo <= i < hi <= |ps| && hi <= |ks| && RoundConstantsFor(ps, ks, lo, hi)
    ensures IsRoundConstant(ps[i], ks[i])
    decreases i - lo
  {
    hide IsRoundConstant;
    if lo < i {
      RoundConstantAt(ps, ks, i, lo + 1, hi);
    }
  }

  lemma TableLengths()
    ensures |PRIMES| == 64 && |K| == 64
  {
  }

  lemma TableEntry(i: nat)
    requires i < 64
    ensures IsRoundConstant(PRIMES[i], K[i])
  {
    hide IsRoundConstant, RoundConstantsFor;
    if i < 8 { Row0(); RoundConstantAt(PRIMES, K, i, 0, 8); }
    else if i < 16 { Row1(); RoundConstantAt(PRIMES, K, i, 8, 16); }
    else if i < 24 { Row2(); RoundConstantAt(PRIMES, K, i, 16, 24); }
    else if i < 32 { Row3(); RoundConstantAt(PRIMES, K, i, 24, 32); }
    else if i < 40 { Row4(); RoundConstantAt(PRIMES, K, i, 32, 40); }
    else if i < 48 { Row5(); RoundConstantAt(PRIMES, K, i, 40, 48); }
    else if i < 56 { Row6(); RoundConstantAt(PRIMES, K, i, 48, 56); }
    else { Row7(); RoundConstantAt(PRIMES, K, i, 56, 64); }
  }

  lemma RoundConstantIsUnique(p: nat, c: bv64, k: nat)
    requires IsRoundConstant(p, c)
    ensures IsCubeRootFraction(p, k) <==> k == c as int
  {
    hide IsCubeRoot;
    var x := IntegerCubeRoot(p) * TWO32 + c as int;
    if IsCubeRootFraction(p, k) {
      var y: nat :| IsCubeRoot(p, y) && k == y % TWO32;
      CubeRootIsUnique(p, x, y);
    }
  }

  /** Entry `i` of the table is the one number the standard's definition allows for the i-th prime. */
  lemma RoundConstants(i: nat, k: nat)
    requires i < 64
    ensures IsCubeRootFraction(PRIMES[i], k) <==> k == K[i] as int
  {
    hide *;
    TableLengths();
    TableEntry(i);
    RoundConstantIsUnique(PRIMES[i], K[i], k);
  }

  lemma SquareIsMonotone(x: nat, y: nat)
    requires x <= y
    ensures x * x <= y * y
  {
  }

  lemma SquareRootIsUnique(p: nat, x: nat, y: nat)
    requires IsSquareRoot(p, x) && IsSquareRoot(p, y)
    ensures x == y
  {
    if x < y {
      SquareIsMonotone(x + 1, y);
    } else if y < x {
      SquareIsMonotone(y + 1, x);
    }
  }

  lemma InitialWord(p: nat, integerPart: nat, w: nat, k: nat)
    requires w < TWO32 && IsSquareRoot(p, integerPart * TWO32 + w)
    ensures IsSquareRootFraction(p, k) <==> k == w
  {
    hide IsSquareRoot;
    var x := integerPart * TWO32 + w;
    if IsSquareRootFraction(p, k) {
      var y: nat :| IsSquareRoot(p, y) && k == y % TWO32;
      SquareRootIsUnique(p, x, y);
    }
  }

  /** The eight words of the initial hash value are the ones the standard's definition allows. */
  lemma InitialHashValue(k: nat)
    ensures IsSquareRootFraction(2, k) <==> k == H0.a as int
    ensures IsSquareRootFraction(3, k) <==> k == H0.b as int
    ensures IsSquareRootFraction(5, k) <==> k == H0.c as int
    ensures IsSquareRootFraction(7, k) <==> k == H0.d as int
    ensures IsSquareRootFraction(11, k) <==> k == H0.e as int
    ensures IsSquareRootFraction(13, k) <==> k == H0.f as int
    ensures IsSquareRootFraction(17, k) <==> k == H0.g as int
    ensures IsSquareRootFraction(19, k) <==> k == H0.h as int
  {
    InitialWord(2, 1, H0.a as int, k);
    InitialWord(3, 1, H0.b as int, k);
    InitialWord(5, 2, H0.c as int, k);
    InitialWord(7, 2, H0.d as int, k);
    InitialWord(11, 3, H0.e as int, k);
    InitialWord(13, 3, H0.f as int, k);
    InitialWord(17, 4, H0.g as int, k);
    InitialWord(19, 4, H0.h as int, k);
  }
}
