/**
 * Elementary number theory over the naturals: divisibility, primality,
 * least factors, Euclid's lemma and the infinitude of the primes.
 * These are the mathematical facts that the trial-division code relies on.
 */
module NumberTheory {

  /** d is a (positive) divisor of n. */
  predicate Divides(d: nat, n: nat) {
    d > 0 && n % d == 0
  }

  /** n is prime: at least 2 and without a divisor strictly between 1 and n. */
  ghost predicate Prime(n: nat) {
    n >= 2 && forall k :: 1 < k < n ==> !Divides(k, n)
  }

  /** d is the least divisor of x that is greater than 1. */
  ghost predicate IsLeastFactor(x: nat, d: nat) {
    2 <= d <= x && Divides(d, x) && forall k :: 1 < k < d ==> !Divides(k, x)
  }

  // ----- division -----

  lemma MulMonotone(a: nat, b: nat, c: nat)
    requires b <= c
    ensures a * b <= a * c
  {
  }

  lemma SquareMonotone(a: nat, b: nat)
    requires a <= b
    ensures a * a <= b * b
  {
    MulMonotone(a, a, b);
    MulMonotone(b, a, b);
  }

  /** Quotient and remainder are unique. */
  lemma DivModUnique(a: int, k: int, q: int, r: int)
    requires k > 0 && 0 <= r < k && a == k * q + r
    ensures a / k == q && a % k == r
  {
    var q', r' := a / k, a % k;
    assert a == k * q' + r';
    if q > q' {
      MulMonotone(k, 1, q - q');
      assert false;
    } else if q < q' {
      MulMonotone(k, 1, q' - q);
      assert false;
    }
  }

  lemma DividesMultiple(d: nat, m: nat)
    requires d > 0
    ensures Divides(d, d * m) && (d * m) / d == m
  {
    DivModUnique(d * m, d, m, 0);
  }

  lemma DividesSelf(n: nat)
    requires n > 0
    ensures Divides(n, n)
  {
    DividesMultiple(n, 1);
  }

  /** A divisor splits n into itself times the quotient. */
  lemma DividesQuotient(d: nat, n: nat)
    requires Divides(d, n)
    ensures n == d * (n / d)
    ensures n > 0 ==> n / d > 0 && Divides(n / d, n)
  {
    if n > 0 {
      var q := n / d;
      assert n == d * q;
      DividesMultiple(q, d);
      assert q * d == n;
    }
  }

  /** A positive multiple is at least as large as its divisor. */
  lemma DividesBound(d: nat, n: nat)
    requires Divides(d, n) && n > 0
    ensures d <= n
  {
    DividesQuotient(d, n);
    MulMonotone(d, 1, n / d);
  }

  lemma DividesProduct(d: nat, n: nat, m: nat)
    requires Divides(d, n)
    ensures Divides(d, n * m) && Divides(d, m * n)
  {
    DividesQuotient(d, n);
    var q := n / d;
    assert n * m == d * (q * m);
    DividesMultiple(d, q * m);
  }

  lemma DividesSum(d: nat, a: nat, b: nat)
    requires Divides(d, a) && Divides(d, b)
    ensures Divides(d, a + b)
  {
    DividesQuotient(d, a);
    DividesQuotient(d, b);
    assert a + b == d * (a / d + b / d);
    DividesMultiple(d, a / d + b / d);
  }

  lemma DividesDifference(d: nat, a: nat, b: nat)
    requires Divides(d, a) && Divides(d, b) && b <= a
    ensures Divides(d, a - b)
  {
    DividesQuotient(d, a);
    DividesQuotient(d, b);
    var qa, qb := a / d, b / d;
    assert a - b == d * (qa - qb);
    DividesMultiple(d, qa - qb);
  }

  lemma DividesTransitive(a: nat, b: nat, c: nat)
    requires Divides(a, b) && Divides(b, c)
    ensures Divides(a, c)
  {
    DividesQuotient(b, c);
    DividesProduct(a, b, c / b);
  }

  /** Dividing a quotient means dividing the original number. */
  lemma DividesOfQuotient(k: nat, d: nat, n: nat)
    requires Divides(d, n) && Divides(k, n / d)
    ensures Divides(k, n)
  {
    DividesQuotient(d, n);
    DividesProduct(k, n / d, d);
    assert (n / d) * d == n;
  }

  /** The quotient by a factor of at least 2 is smaller. */
  lemma QuotientSmaller(n: nat, d: nat)
    requires n > 0 && d >= 2
    ensures n / d < n
  {
    var q, r := n / d, n % d;
    assert n == d * q + r;
    if q >= n {
      MulMonotone(q, 2, d);
      assert false;
    }
  }

  // ----- least factors -----

  /** Searches upward from d for the least divisor of x. */
  ghost function LeastFactorFrom(x: nat, d: nat): (f: nat)
    requires 2 <= d <= x
    requires forall k :: 1 < k < d ==> !Divides(k, x)
    ensures IsLeastFactor(x, f)
    decreases x - d
  {
    if Divides(d, x) then d
    else
      DividesSelf(x);
      LeastFactorFrom(x, d + 1)
  }

  /** The least factor of x greater than 1. */
  ghost function LeastFactor(x: nat): (f: nat)
    requires x >= 2
    ensures IsLeastFactor(x, f)
  {
    LeastFactorFrom(x, 2)
  }

  lemma LeastFactorUnique(x: nat, f: nat, g: nat)
    requires IsLeastFactor(x, f) && IsLeastFactor(x, g)
    ensures f == g
  {
  }

  /** The least factor of a number is prime. */
  lemma LeastFactorIsPrime(x: nat, f: nat)
    requires IsLeastFactor(x, f)
    ensures Prime(f)
  {
    forall k | 1 < k < f
      ensures !Divides(k, f)
    {
      if Divides(k, f) {
        DividesTransitive(k, f, x);
      }
    }
  }

  /** A composite number has its least factor at most its square root. */
  lemma LeastFactorSquare(x: nat, f: nat)
    requires IsLeastFactor(x, f) && f < x
    ensures f * f <= x
  {
    DividesQuotient(f, x);
    var c := x / f;
    assert x == f * c;
    assert c >= f;
    MulMonotone(f, f, c);
  }

  /** x is prime exactly when it is its own least factor. */
  lemma PrimeIffOwnLeastFactor(x: nat, f: nat)
    requires IsLeastFactor(x, f)
    ensures Prime(x) <==> f == x
  {
    if f < x {
      assert !Prime(x) by {
        assert 1 < f < x && Divides(f, x);
      }
    }
  }

  /** A number with no prime divisor at or below its square root is prime. */
  lemma NoSmallPrimeFactor(x: nat)
    requires x >= 2
    requires forall q: nat :: Prime(q) && q * q <= x ==> !Divides(q, x)
    ensures Prime(x)
  {
    var f := LeastFactor(x);
    LeastFactorIsPrime(x, f);
    if f < x {
      LeastFactorSquare(x, f);
      assert false;
    }
    PrimeIffOwnLeastFactor(x, f);
  }

  lemma PrimeDivisorOfPrime(p: nat, q: nat)
    requires Prime(p) && Prime(q) && Divides(p, q)
    ensures p == q
  {
    DividesBound(p, q);
  }

  lemma EvenNotPrime(n: nat)
    requires n > 2 && n % 2 == 0
    ensures !Prime(n)
  {
    assert Divides(2, n);
  }

  lemma OddPrime(p: nat)
    requires Prime(p) && p > 2
    ensures p % 2 == 1
  {
    assert !Divides(2, p);
  }

  // ----- Euclid's lemma -----

  /** Subtractive form of the greatest common divisor. */
  ghost function Gcd(x: nat, y: nat): nat
    requires x > 0 && y > 0
    decreases x + y
  {
    if x == y then x
    else if x > y then Gcd(x - y, y)
    else Gcd(x, y - x)
  }

  lemma {:induction false} GcdDivides(x: nat, y: nat)
    requires x > 0 && y > 0
    ensures Divides(Gcd(x, y), x) && Divides(Gcd(x, y), y)
    decreases x + y
  {
    if x == y {
      DividesSelf(x);
    } else if x > y {
      GcdDivides(x - y, y);
      DividesSum(Gcd(x, y), x - y, y);
    } else {
      GcdDivides(x, y - x);
      DividesSum(Gcd(x, y), x, y - x);
    }
  }

  lemma MulDifference(x: nat, y: nat, b: nat)
    requires y <= x
    ensures (x - y) * b == x * b - y * b && y * b <= x * b
  {
    MulMonotone(b, y, x);
  }

  /**
   * The multipliers m with p dividing m * b are closed under the
   * subtractive Euclidean algorithm.
   */
  lemma {:induction false} GcdMultiplier(p: nat, b: nat, x: nat, y: nat)
    requires x > 0 && y > 0
    requires Divides(p, x * b) && Divides(p, y * b)
    ensures Divides(p, Gcd(x, y) * b)
    decreases x + y
  {
    if x > y {
      MulDifference(x, y, b);
      DividesDifference(p, x * b, y * b);
      GcdMultiplier(p, b, x - y, y);
    } else if x < y {
      MulDifference(y, x, b);
      DividesDifference(p, y * b, x * b);
      GcdMultiplier(p, b, x, y - x);
    }
  }

  /** Euclid's lemma: a prime dividing a product divides one of its factors. */
  lemma EuclidLemma(p: nat, a: nat, b: nat)
    requires Prime(p) && Divides(p, a * b)
    ensures Divides(p, a) || Divides(p, b)
  {
    if !Divides(p, a) {
      assert a > 0;
      var g := Gcd(a, p);
      GcdDivides(a, p);
      DividesBound(g, p);
      DividesMultiple(p, b);
      GcdMultiplier(p, b, a, p);
      if g == p {
        assert false;
      }
      assert g == 1;
      assert g * b == b;
    }
  }

  // ----- there is always a larger prime -----

  ghost function Factorial(n: nat): (r: nat)
    ensures r >= 1
  {
    if n == 0 then 1 else n * Factorial(n - 1)
  }

  lemma {:induction false} FactorialDivisible(d: nat, n: nat)
    requires 1 <= d <= n
    ensures Divides(d, Factorial(n))
  {
    if d == n {
      DividesMultiple(d, Factorial(n - 1));
    } else {
      FactorialDivisible(d, n - 1);
      DividesProduct(d, Factorial(n - 1), n);
    }
  }

  /** Euclid: above every number there is a prime. */
  lemma PrimeAbove(m: nat) returns (p: nat)
    ensures Prime(p) && p > m
  {
    var n := Factorial(m) + 1;
    assert n >= 2 by {
      if m > 0 { FactorialDivisible(1, m); }
    }
    p := LeastFactor(n);
    LeastFactorIsPrime(n, p);
    if p <= m {
      FactorialDivisible(p, m);
      DividesDifference(p, n, Factorial(m));
      assert n - Factorial(m) == 1;
      DividesBound(p, 1);
      assert false;
    }
  }
}
