/** The first sixty-four primes, from which the constants of SHA-256 come (FIPS 180-4, section 4.2.2). */
module Primes {
  const PRIMES: seq<nat> :=
    [2, 3, 5, 7, 11, 13, 17, 19] +
    [23, 29, 31, 37, 41, 43, 47, 53] +
    [59, 61, 67, 71, 73, 79, 83, 89] +
    [97, 101, 103, 107, 109, 113, 127, 131] +
    [137, 139, 149, 151, 157, 163, 167, 173] +
    [179, 181, 191, 193, 197, 199, 211, 223] +
    [227, 229, 233, 239, 241, 251, 257, 263] +
    [269, 271, 277, 281, 283, 293, 307, 311]

  function Times(a: nat, b: nat): nat {
    a * b
  }

  ghost predicate IsPrime(n: nat) {
    n >= 2 && forall a, b :: a >= 2 && b >= 2 ==> Times(a, b) != n
  }

  predicate Divides(p: nat, n: nat)
    requires p > 0
  {
    n % p == 0
  }

  /** None of the primes below 18 divides `n`, unless it is `n` itself. */
  predicate Unsplit(n: nat) {
    && (!Divides(2, n) || n == 2) && (!Divides(3, n) || n == 3) && (!Divides(5, n) || n == 5)
    && (!Divides(7, n) || n == 7) && (!Divides(11, n) || n == 11) && (!Divides(13, n) || n == 13)
    && (!Divides(17, n) || n == 17)
  }

  lemma Even(n: nat, k: nat)
    requires n == 2 * k && k >= 2
    ensures Divides(2, n) && n != 2
  {
  }

  lemma By3(n: nat, k: nat)
    requires n == 3 * k && k >= 2
    ensures Divides(3, n) && n != 3
  {
  }

  lemma By5(n: nat, k: nat)
    requires n == 5 * k && k >= 2
    ensures Divides(5, n) && n != 5
  {
  }

  lemma By7(n: nat, k: nat)
    requires n == 7 * k && k >= 2
    ensures Divides(7, n) && n != 7
  {
  }

  lemma By11(n: nat, k: nat)
    requires n == 11 * k && k >= 2
    ensures Divides(11, n) && n != 11
  {
  }

  lemma By13(n: nat, k: nat)
    requires n == 13 * k && k >= 2
    ensures Divides(13, n) && n != 13
  {
  }

  lemma By17(n: nat, k: nat)
    requires n == 17 * k && k >= 2
    ensures Divides(17, n) && n != 17
  {
  }


  lemma SmallFactor(n: nat, a: nat, b: nat)
    requires 2 <= a <= 17 && b >= 2 && Times(a, b) == n
    ensures !Unsplit(n)
  {
    hide Divides;
    match a
    case 2 => Even(n, b);
    case 3 => By3(n, b);
    case 4 => Even(n, 2 * b);
    case 5 => By5(n, b);
    case 6 => Even(n, 3 * b);
    case 7 => By7(n, b);
    case 8 => Even(n, 4 * b);
    case 9 => By3(n, 3 * b);
    case 10 => Even(n, 5 * b);
    case 11 => By11(n, b);
    case 12 => Even(n, 6 * b);
    case 13 => By13(n, b);
    case 14 => Even(n, 7 * b);
    case 15 => By3(n, 5 * b);
    case 16 => Even(n, 8 * b);
    case _ => By17(n, b);
  }

  lemma BigFactors(a: nat, b: nat)
    requires a >= 18 && b >= 18
    ensures Times(a, b) >= 324
  {
  }

  lemma TimesCommutes(a: nat, b: nat)
    ensures Times(a, b) == Times(b, a)
  {
  }

  lemma Quotient(d: nat, n: nat)
    requires d in {2, 3, 5, 7, 11, 13, 17} && Divides(d, n) && n != d && n >= 2
    ensures Times(d, n / d) == n && n / d >= 2
  {
    if d == 2 {
      assert Times(2, n / 2) == n;
    } else if d == 3 {
      assert Times(3, n / 3) == n;
    } else if d == 5 {
      assert Times(5, n / 5) == n;
    } else if d == 7 {
      assert Times(7, n / 7) == n;
    } else if d == 11 {
      assert Times(11, n / 11) == n;
    } else if d == 13 {
      assert Times(13, n / 13) == n;
    } else {
      assert Times(17, n / 17) == n;
    }
  }

  /** Below the square of 18 no other divisors need be tried. */
  lemma UnsplitIsPrime(n: nat)
    requires 2 <= n < 324
    ensures Unsplit(n) <==> IsPrime(n)
  {
    if Unsplit(n) {
      forall a, b | a >= 2 && b >= 2
        ensures Times(a, b) != n
      {
        if Times(a, b) == n {
          TimesCommutes(a, b);
          if a <= 17 {
            SmallFactor(n, a, b);
          } else if b <= 17 {
            SmallFactor(n, b, a);
          } else {
            BigFactors(a, b);
          }
        }
      }
    } else {
      var d :| d in {2, 3, 5, 7, 11, 13, 17} && Divides(d, n) && n != d;
      Quotient(d, n);
    }
  }

  predicate Skipped(n: nat, q: nat) {
    n >= q || !Unsplit(n)
  }

  predicate SkippedThree(n: nat, q: nat) {
    Skipped(n, q) && Skipped(n + 1, q) && Skipped(n + 2, q)
  }

  /** `q` is the first after `p` that is not split; no gap here is longer than fourteen. */
  predicate NextIs(p: nat, q: nat) {
    && p < q <= p + 15 && Unsplit(q)
    && SkippedThree(p + 1, q) && SkippedThree(p + 4, q) && SkippedThree(p + 7, q) && SkippedThree(p + 10, q)
    && SkippedThree(p + 13, q)
  }

  predicate Steps(ps: seq<nat>, i: nat, n: nat)
    requires i <= n < |ps|
    decreases n - i
  {
    i == n || (NextIs(ps[i], ps[i + 1]) && Steps(ps, i + 1, n))
  }

  lemma Row0()
    ensures Steps(PRIMES, 0, 8)
  {
  }

  lemma Row1()
    ensures Steps(PRIMES, 8, 16)
  {
  }

  lemma Row2()
    ensures Steps(PRIMES, 16, 24)
  {
  }

  lemma Row3()
    ensures Steps(PRIMES, 24, 32)
  {
  }

  lemma Row4()
    ensures Steps(PRIMES, 32, 40)
  {
  }

  lemma Row5()
    ensures Steps(PRIMES, 40, 48)
  {
  }

  lemma Row6()
    ensures Steps(PRIMES, 48, 56)
  {
  }

  lemma Row7()
    ensures Steps(PRIMES, 56, 63)
  {
  }

  lemma {:induction false} StepAt(i: nat, lo: nat, hi: nat)
    requires lo <= i < hi < |PRIMES| && Steps(PRIMES, lo, hi)
    ensures NextIs(PRIMES[i], PRIMES[i + 1])
    decreases i - lo
  {
    hide NextIs, PRIMES;
    if lo < i {
      StepAt(i, lo + 1, hi);
    }
  }

  lemma AllSteps(i: nat)
    requires i < 63
    ensures |PRIMES| == 64 && NextIs(PRIMES[i], PRIMES[i + 1])
  {
    assert |PRIMES| == 64;
    hide NextIs, PRIMES, Steps;
    if i < 8 { Row0(); StepAt(i, 0, 8); }
    else if i < 16 { Row1(); StepAt(i, 8, 16); }
    else if i < 24 { Row2(); StepAt(i, 16, 24); }
    else if i < 32 { Row3(); StepAt(i, 24, 32); }
    else if i < 40 { Row4(); StepAt(i, 32, 40); }
    else if i < 48 { Row5(); StepAt(i, 40, 48); }
    else if i < 56 { Row6(); StepAt(i, 48, 56); }
    else { Row7(); StepAt(i, 56, 63); }
  }

  lemma GapIsSplit(p: nat, q: nat, n: nat)
    requires NextIs(p, q) && p < n < q
    ensures !Unsplit(n)
  {
    hide Unsplit;
  }

  lemma TwoIsFirst()
    ensures |PRIMES| == 64 && PRIMES[0] == 2 && Unsplit(2)
  {
  }

  /** Up to each entry the unsplit numbers are the entries. */
  lemma {:induction false} EntriesUpTo(i: nat, n: nat)
    requires i < |PRIMES| == 64 && 2 <= n <= PRIMES[i]
    ensures Unsplit(n) <==> n in PRIMES[..i + 1]
  {
    if i == 0 {
      TwoIsFirst();
      hide PRIMES, Unsplit;
      assert PRIMES[..1] == [PRIMES[0]];
    } else {
      hide PRIMES, Unsplit;
      AllSteps(i - 1);
      assert PRIMES[..i + 1] == PRIMES[..i] + [PRIMES[i]];
      if n <= PRIMES[i - 1] {
        EntriesUpTo(i - 1, n);
      } else {
        if n < PRIMES[i] {
          GapIsSplit(PRIMES[i - 1], PRIMES[i], n);
        }
        EntriesAreBelow(i - 1, n);
      }
    }
  }

  lemma {:induction false} EntriesAreBelow(i: nat, n: nat)
    requires i < |PRIMES| == 64 && n > PRIMES[i]
    ensures n !in PRIMES[..i + 1]
  {
    hide PRIMES, Unsplit;
    assert PRIMES[..i + 1] == PRIMES[..i] + [PRIMES[i]];
    if i > 0 {
      AllSteps(i - 1);
      EntriesAreBelow(i - 1, n);
    }
  }

  /** The table holds exactly the primes up to its last entry, each once, in order. */
  lemma PrimesAreTheFirst()
    ensures |PRIMES| == 64 && PRIMES[63] == 311 && forall i :: 0 <= i < 63 ==> PRIMES[i] < PRIMES[i + 1]
    ensures forall n: nat :: IsPrime(n) && n <= 311 <==> n in PRIMES
  {
    assert |PRIMES| == 64 && PRIMES[63] == 311 && PRIMES[0] == 2;
    hide PRIMES, IsPrime, Unsplit;
    forall i | 0 <= i < 63
      ensures PRIMES[i] < PRIMES[i + 1]
    {
      AllSteps(i);
    }
    forall n: nat
      ensures IsPrime(n) && n <= 311 <==> n in PRIMES
    {
      assert PRIMES[..64] == PRIMES;
      if n > 311 {
        EntriesAreBelow(63, n);
      } else if n >= 2 {
        EntriesUpTo(63, n);
        UnsplitIsPrime(n);
      } else {
        AtLeastTwo(n);
      }
    }
  }

  lemma AtLeastTwo(n: nat)
    requires n < 2
    ensures !IsPrime(n) && n !in PRIMES
  {
    TwoIsFirst();
    hide PRIMES, Unsplit;
    forall i | 0 <= i < 64
      ensures PRIMES[i] >= 2
    {
      EntryIsAtLeastTwo(i);
    }
  }

  lemma {:induction false} EntryIsAtLeastTwo(i: nat)
    requires i < |PRIMES| == 64
    ensures PRIMES[i] >= 2
  {
    TwoIsFirst();
    hide PRIMES, Unsplit;
    if i > 0 {
      EntryIsAtLeastTwo(i - 1);
      AllSteps(i - 1);
    }
  }
}
