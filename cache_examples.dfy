/**
 * Clients of the prime cache, one per unit test of the library: what a
 * caller can derive from the contracts of TrialDivision and PrimeSetIter
 * alone.
 */
module CacheExamples {
  import opened NumberTheory
  import opened Factorization
  import opened PrimeCache

  /** No divisor of n in [2, k); small instances unfold on literals. */
  predicate NoDivisorBelow(n: nat, k: nat)
    decreases k
  {
    if k <= 2 then true else n % (k - 1) != 0 && NoDivisorBelow(n, k - 1)
  }

  lemma {:induction false} NoDivisorBelowSound(n: nat, k: nat)
    requires NoDivisorBelow(n, k)
    ensures forall j :: 1 < j < k ==> !Divides(j, n)
    decreases k
  {
    if k > 2 {
      NoDivisorBelowSound(n, k - 1);
    }
  }

  /** Trial division up to the square root certifies a prime. */
  lemma TrialCertificate(n: nat, k: nat)
    requires n >= 2 && NoDivisorBelow(n, k) && n < k * k
    ensures Prime(n)
  {
    NoDivisorBelowSound(n, k);
    NoFactorBelowRoot(n, k);
  }

  const FirstNine: seq<nat> := [2, 3, 5, 7, 11, 13, 17, 19, 23]

  lemma FirstNineArePrime()
    ensures forall i :: 0 <= i < |FirstNine| ==> Prime(FirstNine[i])
  {
    TrialCertificate(2, 2);
    TrialCertificate(3, 2);
    TrialCertificate(5, 3);
    TrialCertificate(7, 3);
    TrialCertificate(11, 4);
    TrialCertificate(13, 4);
    TrialCertificate(17, 5);
    TrialCertificate(19, 5);
    TrialCertificate(23, 5);
  }

  /** Every number up to 23 outside the list is divisible by 2 or 3. */
  lemma FirstNineComplete()
    ensures forall q: nat :: Prime(q) && q <= 23 ==> q in FirstNine
  {
    forall q: nat | Prime(q) && q <= 23
      ensures q in FirstNine
    {
      if q % 2 == 0 {
        assert Divides(2, q);
      } else if q % 3 == 0 {
        assert Divides(3, q);
      }
    }
  }

  lemma FirstNineIsPrimePrefix()
    ensures PrimePrefix(FirstNine)
  {
    FirstNineArePrime();
    FirstNineComplete();
  }

  /** Any prime prefix of nine or more elements starts 2, 3, 5, ..., 23. */
  lemma FirstNinePrimes(s: seq<nat>)
    requires PrimePrefix(s) && |s| >= 9
    ensures s[..9] == FirstNine
  {
    FirstNineIsPrimePrefix();
    PrimePrefixAgree(s, FirstNine, 9);
  }

  /** unit_tests `primesetbasics_expand`: one expansion of a new cache appends 5. */
  method ExpandFromNew() returns (before: nat, list: seq<nat>)
    ensures before == 2 && list == [2, 3, 5]
  {
    var ps := new TrialDivision();
    before := ps.Len();
    ps.Expand();
    list := ps.List();
    FirstNineIsPrimePrefix();
    PrimePrefixAgree(list, FirstNine, 3);
    assert list == list[..3];
  }

  /** The least prime at or above 10 is 11. */
  lemma LeastPrimeFromTen(p: nat)
    requires Prime(p) && 10 <= p
    requires forall q: nat :: 10 <= q < p ==> !Prime(q)
    ensures p == 11
  {
    TrialCertificate(11, 4);
    assert Divides(2, 10);
  }

  /** 11 is the fifth prime. */
  lemma IndexOfEleven(s: seq<nat>, i: nat)
    requires PrimePrefix(s) && i < |s| && s[i] == 11
    ensures i == 4
  {
    FirstNineIsPrimePrefix();
    PrimePrefixTake(s, i + 1);
    PrimePrefixTake(FirstNine, 5);
    PrimePrefixByLast(s[..i + 1], FirstNine[..5]);
    assert |s[..i + 1]| == |FirstNine[..5]|;
  }

  /** unit_tests `primeset_next_prime_from_number`: find(10) is 11, at index 4. */
  method FindTen() returns (idx: nat, p: nat)
    ensures idx == 4 && p == 11
  {
    var ps := new TrialDivision();
    idx, p := ps.Find(10);
    LeastPrimeFromTen(p);
    IndexOfEleven(ps.lst, idx);
  }

  /** unit_tests `primeset_iterator`: the first nine primes from `iter` are 2, 3, 5, ..., 23. */
  method IterFirstNine() returns (xs: seq<nat>)
    ensures xs == FirstNine
  {
    var ps := new TrialDivision();
    var it := ps.Iter();
    xs := [];
    while |xs| < 9
      invariant ps.Valid() && it.p == ps && it.expand
      invariant |xs| <= 9 && it.n == |xs| <= |ps.lst| && xs == ps.lst[..|xs|]
      decreases 9 - |xs|
    {
      ghost var before := ps.lst;
      var r := it.Next();
      assert before[..|xs|] == ps.lst[..|xs|];
      xs := xs + [r.value];
    }
    FirstNinePrimes(ps.lst);
  }

  /** A `generator` on a new cache yields only newly found primes: first 5. */
  method GeneratorFromNew() returns (r: Option<nat>)
    ensures r == Some(5)
  {
    var ps := new TrialDivision();
    var it := ps.Generator();
    r := it.Next();
    FirstNineIsPrimePrefix();
    PrimePrefixAgree(ps.lst, FirstNine, 3);
  }

  /**
   * unit_tests `primeset_find_primes`, for any n: a new cache has no answer
   * for n above 3; `find(n)` then answers (i, p), `find(p)` gives the same
   * answer, the cache ends at p and `find_vec(n)` now agrees.
   */
  method FindThenFindVec(n: nat) returns (before: Option<(nat, nat)>, found: (nat, nat), again: (nat, nat), after: Option<(nat, nat)>, len: nat, last: nat)
    ensures before.None? <==> n > 3
    ensures again == found
    ensures after == Some(found)
    ensures n > 3 ==> len == found.0 + 1 && last == found.1
  {
    var ps := new TrialDivision();
    before := ps.FindVec(n);
    var i, p := ps.Find(n);
    found := (i, p);
    var j, q := ps.Find(p);
    again := (j, q);
    after := ps.FindVec(n);
    len := ps.Len();
    last := ps.Last();
  }
}
