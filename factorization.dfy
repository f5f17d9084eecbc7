/**
 * The free functions of the library: the trial-division oracle `firstfac`,
 * the primality test `is_prime`, and the factorisations `factors` and
 * `factors_unique`. Each loop is a method proved against a ghost
 * specification function that follows the same recursion; the properties the
 * library promises are proved about those functions.
 */
module Factorization {
  import opened NumberTheory
  import opened Sequences

  /** Product of the elements of s (1 for the empty sequence). */
  ghost function Product(s: seq<nat>): nat {
    if s == [] then 1 else s[0] * Product(s[1..])
  }

  /**
   * The prime factors of x with multiplicity, as `factors` finds them:
   * the least factor, then the factors of the quotient.
   */
  ghost function PrimeFactors(x: nat): seq<nat>
    decreases x
  {
    if x <= 1 then []
    else
      var d := LeastFactor(x);
      if d == x then [x]
      else
        QuotientSmaller(x, d);
        [d] + PrimeFactors(x / d)
  }

  /** x with every factor d divided out, as the inner loop of `factors_unique` leaves it. */
  ghost function StripFactor(x: nat, d: nat): (y: nat)
    requires x >= 1 && d >= 2
    ensures 1 <= y <= x && !Divides(d, y) && Divides(y, x)
    ensures Divides(d, x) ==> y < x
    decreases x
  {
    if Divides(d, x) then
      QuotientSmaller(x, d);
      DividesQuotient(d, x);
      var y := StripFactor(x / d, d);
      DividesOfQuotient(y, d, x);
      y
    else
      DividesSelf(x);
      x
  }

  /** The distinct prime factors of x, as `factors_unique` finds them. */
  ghost function DistinctPrimeFactors(x: nat): seq<nat>
    decreases x
  {
    if x <= 1 then []
    else
      var d := LeastFactor(x);
      if d == x then [d]
      else [d] + DistinctPrimeFactors(StripFactor(x, d))
  }

  // ----- the trial-division oracle and the primality test -----

  /** An even number does not divide an odd one. */
  lemma EvenDoesNotDivideOdd(e: nat, x: nat)
    requires e % 2 == 0 && x % 2 == 1
    ensures !Divides(e, x)
  {
    if Divides(e, x) {
      DividesTransitive(2, e, x);
      assert false;
    }
  }

  /** One step of the odd trial divisors: neither d nor the even d + 1 divides an odd x. */
  lemma OddTrialStep(x: nat, d: nat)
    requires x % 2 == 1 && d % 2 == 1 && x % d != 0
    requires forall k :: 1 < k < d ==> !Divides(k, x)
    ensures forall k :: 1 < k < d + 2 ==> !Divides(k, x)
  {
    EvenDoesNotDivideOdd(d + 1, x);
  }

  /** 2 is the least factor of an even x >= 2, and x is prime only if it is 2. */
  lemma EvenLeastFactor(x: nat)
    requires x >= 2 && x % 2 == 0
    ensures IsLeastFactor(x, 2) && (2 == x <==> Prime(x))
  {
    PrimeIffOwnLeastFactor(x, 2);
  }

  /** The first divisor found at or below the square root is the least factor, and x is not prime. */
  lemma FoundFactor(x: nat, d: nat)
    requires d >= 2 && d * d <= x && x % d == 0
    requires forall k :: 1 < k < d ==> !Divides(k, x)
    ensures IsLeastFactor(x, d) && (d == x <==> Prime(x))
  {
    MulMonotone(d, 1, d);
    PrimeIffOwnLeastFactor(x, d);
  }

  /** Trial division that passes the square root without a factor leaves a prime. */
  lemma NoFactorBelowRoot(x: nat, d: nat)
    requires x >= 2 && x < d * d
    requires forall k :: 1 < k < d ==> !Divides(k, x)
    ensures IsLeastFactor(x, x) && Prime(x)
  {
    var f := LeastFactor(x);
    if f < x {
      LeastFactorSquare(x, f);
      if d <= f {
        SquareMonotone(d, f);
      }
      assert false;
    }
    PrimeIffOwnLeastFactor(x, x);
  }

  /**
   * The smallest factor of x other than 1: 2 for even x, otherwise the first
   * odd d from 3 with d * d <= x that divides x, otherwise x itself.
   */
  method FirstFac(x: nat) returns (d: nat)
    ensures x == 0 ==> d == 2
    ensures x == 1 ==> d == 1
    ensures x >= 2 ==> IsLeastFactor(x, d) && (d == x <==> Prime(x))
  {
    if x % 2 == 0 {
      if x >= 2 {
        EvenLeastFactor(x);
      }
      return 2;
    }
    d := 3;
    while d * d <= x
      invariant d >= 3 && d % 2 == 1
      invariant forall k :: 1 < k < d ==> !Divides(k, x)
    {
      if x % d == 0 {
        FoundFactor(x, d);
        return d;
      }
      OddTrialStep(x, d);
      d := d + 2;
    }
    if x >= 2 {
      NoFactorBelowRoot(x, d);
    }
    return x;
  }

  /** `is_prime`: true exactly for the primes (so not for 0 and 1). */
  method IsPrime(n: nat) returns (b: bool)
    ensures b <==> Prime(n)
  {
    if n > 1 {
      var d := FirstFac(n);
      b := d == n;
    } else {
      b := false;
    }
  }

  // ----- factors -----

  /** Every prime factor is a prime divisor of x. */
  lemma {:induction false} PrimeFactorsDivide(x: nat)
    ensures forall e :: e in PrimeFactors(x) ==> Prime(e) && Divides(e, x)
    decreases x
  {
    if x > 1 {
      var d := LeastFactor(x);
      LeastFactorIsPrime(x, d);
      if d < x {
        QuotientSmaller(x, d);
        PrimeFactorsDivide(x / d);
        forall e | e in PrimeFactors(x / d)
          ensures Divides(e, x)
        {
          DividesOfQuotient(e, d, x);
        }
      }
    }
  }

  /** The product of the prime factors of x is x. */
  lemma {:induction false} PrimeFactorsProduct(x: nat)
    requires x >= 1
    ensures Product(PrimeFactors(x)) == x
    decreases x
  {
    if x > 1 {
      var d := LeastFactor(x);
      if d < x {
        QuotientSmaller(x, d);
        DividesQuotient(d, x);
        PrimeFactorsProduct(x / d);
        assert PrimeFactors(x)[1..] == PrimeFactors(x / d);
      } else {
        assert PrimeFactors(x)[1..] == [];
      }
    }
  }

  /** The prime factors come smallest first. */
  lemma {:induction false} PrimeFactorsSorted(x: nat)
    ensures NonDecreasing(PrimeFactors(x))
    decreases x
  {
    if x > 1 {
      var d := LeastFactor(x);
      if d < x {
        var y := x / d;
        QuotientSmaller(x, d);
        PrimeFactorsSorted(y);
        PrimeFactorsDivide(y);
        var t := PrimeFactors(y);
        forall e | e in t
          ensures d <= e
        {
          DividesOfQuotient(e, d, x);
        }
        assert PrimeFactors(x) == [d] + t;
        forall i, j | 0 <= i < j < |PrimeFactors(x)|
          ensures PrimeFactors(x)[i] <= PrimeFactors(x)[j]
        {
          assert PrimeFactors(x)[j] == t[j - 1];
          if i == 0 {
            assert t[j - 1] in t;
          }
        }
      }
    }
  }

  /** Every prime divisor of a positive x occurs among its prime factors. */
  lemma {:induction false} PrimeFactorsComplete(x: nat, p: nat)
    requires x >= 1 && Prime(p) && Divides(p, x)
    ensures p in PrimeFactors(x)
    decreases x
  {
    DividesBound(p, x);
    var d := LeastFactor(x);
    LeastFactorIsPrime(x, d);
    if d == x {
      PrimeDivisorOfPrime(p, x);
    } else if p != d {
      DividesQuotient(d, x);
      EuclidLemma(p, d, x / d);
      if Divides(p, d) {
        PrimeDivisorOfPrime(p, d);
        assert false;
      }
      QuotientSmaller(x, d);
      PrimeFactorsComplete(x / d, p);
    }
  }

  /** `factors` returns exactly the prime factorisation, in order. */
  lemma PrimeFactorsCorrect(x: nat)
    requires x >= 1
    ensures Product(PrimeFactors(x)) == x
    ensures NonDecreasing(PrimeFactors(x))
    ensures forall p :: p in PrimeFactors(x) <==> Prime(p) && Divides(p, x)
    ensures forall i :: 0 <= i < |PrimeFactors(x)| ==> Prime(PrimeFactors(x)[i])
  {
    PrimeFactorsProduct(x);
    PrimeFactorsSorted(x);
    PrimeFactorsDivide(x);
    forall p | Prime(p) && Divides(p, x)
      ensures p in PrimeFactors(x)
    {
      PrimeFactorsComplete(x, p);
    }
  }

  lemma {:induction false} ProductOfPrimesPositive(s: seq<nat>)
    requires forall i :: 0 <= i < |s| ==> Prime(s[i])
    ensures Product(s) >= 1
    decreases |s|
  {
    if s != [] {
      ProductOfPrimesPositive(s[1..]);
      MulMonotone(s[0], 1, Product(s[1..]));
    }
  }

  /**
   * Uniqueness of factorisation: a sorted list of primes is the list that
   * `factors` returns for its product.
   */
  lemma {:induction false} UniqueFactorization(s: seq<nat>, x: nat)
    requires NonDecreasing(s) && (forall i :: 0 <= i < |s| ==> Prime(s[i]))
    requires Product(s) == x
    ensures PrimeFactors(x) == s
    decreases |s|
  {
    if s != [] {
      var t := s[1..];
      var y := Product(t);
      assert NonDecreasing(t);
      UniqueFactorization(t, y);
      ProductOfPrimesPositive(t);
      MulMonotone(s[0], 1, y);
      var d := LeastFactor(x);
      LeastFactorIsPrime(x, d);
      DividesMultiple(s[0], y);
      EuclidLemma(d, s[0], y);
      if Divides(d, s[0]) {
        PrimeDivisorOfPrime(d, s[0]);
      } else {
        PrimeFactorsComplete(y, d);
        var j :| 0 <= j < |t| && t[j] == d;
        assert s[j + 1] == d;
      }
      assert d == s[0];
      if y == 1 {
        assert t == [];
        assert s == [x];
      } else {
        MulMonotone(d, 2, y);
        assert PrimeFactors(x) == [d] + PrimeFactors(x / d);
        assert s == [s[0]] + t;
      }
    }
  }

  /** Dividing by a proper divisor leaves a quotient from 2 to below y. */
  lemma QuotientAtLeastTwo(y: nat, d: nat)
    requires 2 <= d < y && Divides(d, y)
    ensures 2 <= y / d < y
  {
    DividesQuotient(d, y);
    QuotientSmaller(y, d);
    if y / d <= 1 {
      MulMonotone(d, y / d, 1);
      assert false;
    }
  }

  /**
   * One round of `factors`: the least factor d of y heads the factorisation
   * of y; stated for the factors `done` already collected.
   */
  lemma PrimeFactorsStep(done: seq<nat>, y: nat, d: nat)
    requires y >= 2 && IsLeastFactor(y, d)
    ensures d == y ==> done + [d] == done + PrimeFactors(y)
    ensures d < y ==> 2 <= y / d < y && (done + [d]) + PrimeFactors(y / d) == done + PrimeFactors(y)
  {
    LeastFactorUnique(y, d, LeastFactor(y));
    if d < y {
      QuotientAtLeastTwo(y, d);
      var rest := PrimeFactors(y / d);
      assert PrimeFactors(y) == [d] + rest;
      assert (done + [d]) + rest == done + ([d] + rest);
    }
  }

  /** `factors`: all prime factors of x with multiplicity; empty for x <= 1. */
  method Factors(x: nat) returns (lst: seq<nat>)
    ensures lst == PrimeFactors(x)
    ensures x <= 1 ==> lst == []
    ensures x >= 2 ==> Product(lst) == x && NonDecreasing(lst) && forall i :: 0 <= i < |lst| ==> Prime(lst[i])
  {
    if x <= 1 {
      return [];
    }
    var y := x;
    lst := [];
    while true
      invariant y >= 2
      invariant lst + PrimeFactors(y) == PrimeFactors(x)
      decreases y
    {
      var d := FirstFac(y);
      PrimeFactorsStep(lst, y, d);
      lst := lst + [d];
      if d == y {
        break;
      } else {
        y := y / d;
      }
    }
    PrimeFactorsCorrect(x);
  }

  lemma {:induction false} StripKeepsOtherPrimes(x: nat, d: nat, p: nat)
    requires x >= 1 && Prime(d) && Prime(p) && p != d && Divides(p, x)
    ensures Divides(p, StripFactor(x, d))
    decreases x
  {
    if Divides(d, x) {
      DividesQuotient(d, x);
      EuclidLemma(p, d, x / d);
      if Divides(p, d) {
        PrimeDivisorOfPrime(p, d);
        assert false;
      }
      QuotientSmaller(x, d);
      StripKeepsOtherPrimes(x / d, d, p);
    }
  }

  /** Every distinct prime factor is a prime divisor of x. */
  lemma {:induction false} DistinctPrimeFactorsDivide(x: nat)
    ensures forall e :: e in DistinctPrimeFactors(x) ==> Prime(e) && Divides(e, x)
    decreases x
  {
    if x > 1 {
      var d := LeastFactor(x);
      LeastFactorIsPrime(x, d);
      if d < x {
        var y := StripFactor(x, d);
        DistinctPrimeFactorsDivide(y);
        forall e | e in DistinctPrimeFactors(y)
          ensures Divides(e, x)
        {
          DividesTransitive(e, y, x);
        }
      }
    }
  }

  /** The distinct prime factors are strictly increasing. */
  lemma {:induction false} DistinctPrimeFactorsSorted(x: nat)
    ensures StrictlyIncreasing(DistinctPrimeFactors(x))
    decreases x
  {
    if x > 1 {
      var d := LeastFactor(x);
      if d < x {
        var y := StripFactor(x, d);
        DistinctPrimeFactorsSorted(y);
        DistinctPrimeFactorsDivide(y);
        var t := DistinctPrimeFactors(y);
        forall e | e in t
          ensures d < e
        {
          DividesTransitive(e, y, x);
          if e == d {
            assert false;
          }
        }
        assert DistinctPrimeFactors(x) == [d] + t;
        forall i, j | 0 <= i < j < |DistinctPrimeFactors(x)|
          ensures DistinctPrimeFactors(x)[i] < DistinctPrimeFactors(x)[j]
        {
          assert DistinctPrimeFactors(x)[j] == t[j - 1];
          if i == 0 {
            assert t[j - 1] in t;
          }
        }
      }
    }
  }

  /** Every prime divisor of a positive x occurs among its distinct prime factors. */
  lemma {:induction false} DistinctPrimeFactorsComplete(x: nat, p: nat)
    requires x >= 1 && Prime(p) && Divides(p, x)
    ensures p in DistinctPrimeFactors(x)
    decreases x
  {
    DividesBound(p, x);
    var d := LeastFactor(x);
    LeastFactorIsPrime(x, d);
    if d == x {
      PrimeDivisorOfPrime(p, x);
    } else if p != d {
      StripKeepsOtherPrimes(x, d, p);
      DistinctPrimeFactorsComplete(StripFactor(x, d), p);
    }
  }

  /** `factors_unique` returns exactly the distinct prime divisors, in increasing order. */
  lemma DistinctPrimeFactorsCorrect(x: nat)
    requires x >= 1
    ensures StrictlyIncreasing(DistinctPrimeFactors(x))
    ensures forall p :: p in DistinctPrimeFactors(x) <==> Prime(p) && Divides(p, x)
  {
    DistinctPrimeFactorsSorted(x);
    DistinctPrimeFactorsDivide(x);
    forall p | Prime(p) && Divides(p, x)
      ensures p in DistinctPrimeFactors(x)
    {
      DistinctPrimeFactorsComplete(x, p);
    }
  }

  /** `factors_unique(x)` is `factors(x)` with repeated factors removed. */
  lemma DistinctIsDedupOfFactors(x: nat)
    ensures DistinctPrimeFactors(x) == Dedup(PrimeFactors(x))
  {
    if x >= 1 {
      PrimeFactorsCorrect(x);
      DistinctPrimeFactorsCorrect(x);
      DedupOfSorted(PrimeFactors(x));
      StrictlyIncreasingUnique(DistinctPrimeFactors(x), Dedup(PrimeFactors(x)));
    }
  }

  /**
   * One round of `factors_unique`: the least factor d of y heads its distinct
   * factors, followed by those of y stripped of d; stated for the factors
   * `done` already collected.
   */
  lemma DistinctPrimeFactorsStep(done: seq<nat>, y: nat, d: nat)
    requires y >= 2 && IsLeastFactor(y, d)
    ensures d == y ==> done + [d] == done + DistinctPrimeFactors(y)
    ensures d < y ==> (done + [d]) + DistinctPrimeFactors(StripFactor(y, d)) == done + DistinctPrimeFactors(y)
  {
    LeastFactorUnique(y, d, LeastFactor(y));
    if d < y {
      var rest := DistinctPrimeFactors(StripFactor(y, d));
      assert DistinctPrimeFactors(y) == [d] + rest;
      assert (done + [d]) + rest == done + ([d] + rest);
    }
  }

  /** One division of the inner loop of `factors_unique`, and its exit. */
  lemma StripStep(y: nat, d: nat)
    requires y >= 1 && d >= 2
    ensures y % d == 0 ==> 1 <= y / d < y && StripFactor(y / d, d) == StripFactor(y, d)
    ensures y % d != 0 ==> StripFactor(y, d) == y
  {
    if y % d == 0 {
      QuotientSmaller(y, d);
      DividesQuotient(d, y);
    }
  }

  /** `factors_unique`: each distinct prime factor of x once; empty for x <= 1. */
  method FactorsUnique(x: nat) returns (lst: seq<nat>)
    ensures lst == DistinctPrimeFactors(x)
    ensures lst == Dedup(PrimeFactors(x))
    ensures x <= 1 ==> lst == []
    ensures x >= 1 ==> StrictlyIncreasing(lst) && forall p :: p in lst <==> Prime(p) && Divides(p, x)
  {
    DistinctIsDedupOfFactors(x);
    if x <= 1 {
      return [];
    }
    var y := x;
    lst := [];
    while true
      invariant y >= 2
      invariant lst + DistinctPrimeFactors(y) == DistinctPrimeFactors(x)
      decreases y
    {
      var d := FirstFac(y);
      DistinctPrimeFactorsStep(lst, y, d);
      lst := lst + [d];
      if d == y {
        break;
      }
      ghost var stripped := StripFactor(y, d);
      ghost var y0 := y;
      while y % d == 0
        invariant 1 <= y <= y0
        invariant StripFactor(y, d) == stripped
        decreases y
      {
        StripStep(y, d);
        y := y / d;
      }
      StripStep(y, d);
      if y == 1 {
        assert lst + DistinctPrimeFactors(y) == lst;
        break;
      }
    }
    DistinctPrimeFactorsCorrect(x);
  }
}
