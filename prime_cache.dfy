/**
 * The lazily grown prime cache (`TrialDivision`), the query layer over it
 * (the `PrimeSet` methods, here methods of the same class) and the
 * iterator cursor `PrimeSetIter`.
 *
 * The cache is a sequence that is only ever extended at the end. Its
 * invariant, PrimePrefix, says it holds exactly the primes up to its last
 * element, in increasing order; every query is stated against it.
 */
module PrimeCache {
  import opened NumberTheory
  import opened Sequences

  datatype Option<T> = None | Some(value: T)

  /** s is the list of all primes up to its last element, in increasing order. */
  ghost predicate PrimePrefix(s: seq<nat>) {
    && |s| > 0
    && StrictlyIncreasing(s)
    && (forall i :: 0 <= i < |s| ==> Prime(s[i]))
    && (forall q: nat {:trigger q in s} :: Prime(q) && q <= s[|s| - 1] ==> q in s)
  }

  /** No prime lies strictly between lo and hi. */
  ghost predicate PrimeGap(lo: nat, hi: nat) {
    forall q: nat :: lo < q < hi ==> !Prime(q)
  }

  // ----- facts about prime prefixes -----

  /** The element at index i of a prime prefix is the i-th prime (counting from 0). */
  lemma PrimePrefixIndex(s: seq<nat>, i: nat)
    requires PrimePrefix(s) && i < |s|
    ensures Prime(s[i])
    ensures forall q: nat :: Prime(q) && q < s[i] <==> q in s[..i]
  {
    forall q: nat | Prime(q) && q < s[i]
      ensures q in s[..i]
    {
      assert q in s;
      var j :| 0 <= j < |s| && s[j] == q;
      assert s[..i][j] == q;
    }
    forall q: nat | q in s[..i]
      ensures Prime(q) && q < s[i]
    {
      var j :| 0 <= j < i && s[..i][j] == q;
      assert s[j] == q;
    }
  }

  /** A prime prefix with the next prime appended is again a prime prefix. */
  lemma PrimePrefixExtend(s: seq<nat>, p: nat)
    requires PrimePrefix(s) && Prime(p) && s[|s| - 1] < p && PrimeGap(s[|s| - 1], p)
    ensures PrimePrefix(s + [p])
  {
    var t := s + [p];
    forall i, j | 0 <= i < j < |t|
      ensures t[i] < t[j]
    {
      if j == |s| {
        assert s[i] <= s[|s| - 1];
      }
    }
    forall q: nat | Prime(q) && q <= p
      ensures q in t
    {
      if q < p {
        assert q <= s[|s| - 1];
        assert q in s;
      }
    }
  }

  /** Every non-empty prefix of a prime prefix is a prime prefix. */
  lemma PrimePrefixTake(s: seq<nat>, k: nat)
    requires PrimePrefix(s) && 0 < k <= |s|
    ensures PrimePrefix(s[..k])
  {
    PrimePrefixIndex(s, k - 1);
    var t := s[..k];
    forall q: nat | Prime(q) && q <= t[k - 1]
      ensures q in t
    {
      if q < s[k - 1] {
        assert q in s[..k - 1];
        var j :| 0 <= j < k - 1 && s[..k - 1][j] == q;
        assert t[j] == q;
      } else {
        assert t[k - 1] == q;
      }
    }
  }

  /** Two prime prefixes agree on their common length. */
  lemma {:induction false} PrimePrefixAgree(s: seq<nat>, t: seq<nat>, i: nat)
    requires PrimePrefix(s) && PrimePrefix(t) && i <= |s| && i <= |t|
    ensures s[..i] == t[..i]
    decreases i
  {
    if i > 0 {
      var k := i - 1;
      PrimePrefixAgree(s, t, k);
      PrimePrefixIndex(s, k);
      PrimePrefixIndex(t, k);
      assert s[..i] == s[..k] + [s[k]];
      assert t[..i] == t[..k] + [t[k]];
    }
  }

  /** A prime prefix is determined by its last element. */
  lemma PrimePrefixByLast(s: seq<nat>, t: seq<nat>)
    requires PrimePrefix(s) && PrimePrefix(t) && s[|s| - 1] == t[|t| - 1]
    ensures s == t
  {
    if |s| < |t| {
      PrimePrefixAgree(s, t, |s|);
      assert false;
    } else if |t| < |s| {
      PrimePrefixAgree(s, t, |t|);
      assert false;
    }
    PrimePrefixAgree(s, t, |s|);
  }

  /**
   * The expander's test: a candidate above the cache, with no prime between
   * the cache and it, is prime when none of the cached primes it was tried
   * against divides it and the trial stopped either at a prime whose square
   * exceeds it or at the end of the cache.
   */
  lemma CandidateIsPrime(s: seq<nat>, l: nat, i: nat)
    requires PrimePrefix(s) && s[|s| - 1] < l && PrimeGap(s[|s| - 1], l)
    requires i <= |s|
    requires forall j :: 0 <= j < i ==> !Divides(s[j], l)
    requires i < |s| ==> !Divides(s[i], l) && s[i] * s[i] > l
    ensures Prime(l)
  {
    assert Prime(s[0]);
    forall q: nat | Prime(q) && q * q <= l
      ensures !Divides(q, l)
    {
      MulMonotone(q, 2, q);
      assert q < l;
      assert q in s;
      var j :| 0 <= j < |s| && s[j] == q;
      if i < |s| && j >= i {
        assert s[i] <= s[j];
        SquareMonotone(s[i], q);
        assert false;
      }
    }
    NoSmallPrimeFactor(l);
  }

  /**
   * What the trial division of a candidate l above a prime prefix, with no
   * prime skipped, decides: the last remainder is non-zero exactly when l is
   * prime.
   */
  lemma TrialVerdict(s: seq<nat>, l: nat, remainder: nat, i: nat)
    requires PrimePrefix(s) && |s| >= 2 && s[|s| - 1] < l && PrimeGap(s[|s| - 1], l)
    requires i <= |s|
    requires forall j :: 0 <= j < i ==> !Divides(s[j], l) && s[j] * s[j] <= l
    requires i < |s| ==> remainder == l % s[i] && (remainder == 0 || s[i] * s[i] > l)
    requires i == |s| ==> remainder == l % s[i - 1]
    ensures remainder != 0 <==> Prime(l)
  {
    if remainder == 0 {
      assert Prime(s[i]) && s[i] <= s[|s| - 1];
      assert 1 < s[i] < l && Divides(s[i], l);
    } else {
      CandidateIsPrime(s, l, i);
    }
  }

  /**
   * Where the candidate search of `expand` starts and why it ends: the first
   * candidate skips only an even number, and a prime above the last one
   * bounds every candidate reachable without skipping a prime.
   */
  lemma SearchBound(last: nat) returns (bound: nat)
    requires last >= 3 && last % 2 == 1
    ensures last + 2 <= bound && PrimeGap(last, last + 2)
    ensures forall m: nat :: PrimeGap(last, m) ==> m <= bound
  {
    bound := PrimeAbove(last);
    OddPrime(bound);
    EvenNotPrime(last + 1);
  }

  /** An odd composite candidate: moving on to the next odd one skips no prime. */
  lemma CompositeCandidate(last: nat, l: nat)
    requires 2 <= last < l && l % 2 == 1
    requires PrimeGap(last, l) && !Prime(l)
    ensures PrimeGap(last, l + 2)
  {
    EvenNotPrime(l + 1);
  }

  /** A prime prefix of at least two elements ends in an odd prime. */
  lemma LastIsOdd(s: seq<nat>)
    requires PrimePrefix(s) && |s| >= 2
    ensures s[|s| - 1] >= 3 && s[|s| - 1] % 2 == 1
  {
    assert Prime(s[0]);
    assert s[0] < s[|s| - 1];
    OddPrime(s[|s| - 1]);
  }

  lemma InitialList()
    ensures PrimePrefix([2, 3])
  {
    var s := [2, 3];
    assert Prime(2);
    assert Prime(3) by {
      assert !Divides(2, 3);
    }
    forall q: nat | Prime(q) && q <= 3
      ensures q in s
    {
      assert q == 2 || q == 3;
    }
  }

  /** Every prime prefix of two or more elements starts with the seed [2, 3]. */
  lemma StartsWithTwoThree(s: seq<nat>)
    requires PrimePrefix(s) && |s| >= 2
    ensures s[..2] == [2, 3]
  {
    InitialList();
    PrimePrefixAgree(s, [2, 3], 2);
  }

  /**
   * A search result: index i is the first whose element reaches n, so that
   * element is the least prime not below n.
   */
  lemma LeastPrimeAtLeast(s: seq<nat>, n: nat, i: nat)
    requires PrimePrefix(s) && i < |s| && n <= s[i]
    requires forall j :: 0 <= j < i ==> s[j] < n
    ensures Prime(s[i]) && forall q: nat :: n <= q < s[i] ==> !Prime(q)
  {
    PrimePrefixIndex(s, i);
  }

  /**
   * A prime generator by trial division. `lst` is the cache of the primes
   * found so far; it starts as [2, 3] and only grows at the end.
   */
  class TrialDivision {
    var lst: seq<nat>

    /** The cache holds the primes 2, 3, ... up to its last element, with none missing. */
    ghost predicate Valid()
      reads this
    {
      |lst| >= 2 && PrimePrefix(lst)
    }

    /** `new`: the cache seeded with 2 and 3. */
    constructor ()
      ensures Valid() && lst == [2, 3]
    {
      lst := [2, 3];
      InitialList();
    }

    function Last(): nat
      reads this
      requires |lst| > 0
    {
      lst[|lst| - 1]
    }

    /**
     * The inner `for` loop of `expand`: divides the candidate l by the cached
     * primes in order, stopping at the first one that divides l or whose
     * square exceeds l, and returns the last remainder computed. For a
     * candidate above the cache with no prime skipped, that remainder is
     * non-zero exactly when l is prime.
     */
    method TrialDivide(l: nat) returns (remainder: nat)
      requires Valid() && Last() < l && PrimeGap(Last(), l)
      ensures remainder != 0 <==> Prime(l)
    {
      remainder := 0;
      var i := 0;
      while i < |lst|
        invariant 0 <= i <= |lst|
        invariant forall j :: 0 <= j < i ==> !Divides(lst[j], l) && lst[j] * lst[j] <= l
        invariant 0 < i ==> remainder == l % lst[i - 1]
      {
        var n := lst[i];
        remainder := l % n;
        if remainder == 0 || n * n > l {
          TrialVerdict(lst, l, remainder, i);
          return;
        }
        i := i + 1;
      }
      TrialVerdict(lst, l, remainder, i);
    }

    /**
     * The outer `loop` of `expand`: tries the odd candidates above the last
     * cached prime with TrialDivide and returns the first one that leaves a
     * non-zero remainder, which is the next prime. It only reads the cache.
     */
    method NextPrime() returns (l: nat)
      requires Valid()
      ensures Prime(l) && Last() < l && PrimeGap(Last(), l)
    {
      ghost var last := Last();
      LastIsOdd(lst);
      ghost var bound := SearchBound(last);
      l := lst[|lst| - 1] + 2;
      while true
        invariant last < l <= bound && l % 2 == 1
        invariant PrimeGap(last, l)
        decreases bound - l
      {
        var remainder := TrialDivide(l);
        if remainder != 0 {
          return;
        }
        CompositeCandidate(last, l);
        l := l + 2;
      }
    }

    /**
     * `expand`: appends the next prime, found by the candidate search
     * NextPrime (the push that ends the source's loop is made here).
     */
    method Expand()
      requires Valid()
      modifies this
      ensures Valid()
      ensures |lst| == |old(lst)| + 1 && lst[..|old(lst)|] == old(lst)
      ensures Prime(Last()) && Last() > old(Last())
      ensures PrimeGap(old(Last()), Last())
    {
      var l := NextPrime();
      PrimePrefixExtend(lst, l);
      lst := lst + [l];
      assert Last() == l && lst[..|old(lst)|] == old(lst);
    }

    /** `list`: the primes found so far, in order and without gaps. */
    function List(): (r: seq<nat>)
      reads this
      ensures r == lst
      ensures Valid() ==> PrimePrefix(r) && r[..2] == [2, 3]
    {
      assert Valid() ==> lst[..2] == [2, 3] by {
        if Valid() {
          StartsWithTwoThree(lst);
        }
      }
      lst
    }
    /** `len`: the number of primes found so far. */
    function Len(): (r: nat)
      reads this
      ensures r == |List()|
      ensures Valid() ==> r >= 2
    {
      |lst|
    }

    /** `is_empty`: never true of a cache built by `new`. */
    function IsEmpty(): (r: bool)
      reads this
      ensures r <==> |List()| == 0
      ensures Valid() ==> !r
    {
      |lst| == 0
    }

    /** `index` (the `[]` operator): the cached prime at position i, which is the i-th prime. */
    function Index(i: nat): (r: nat)
      reads this
      requires i < |lst|
      ensures r == List()[i]
      ensures Valid() ==> Prime(r) && forall q: nat :: Prime(q) && q < r <==> q in lst[..i]
    {
      assert Valid() ==> Prime(lst[i]) && forall q: nat :: Prime(q) && q < lst[i] <==> q in lst[..i] by {
        if Valid() {
          PrimePrefixIndex(lst, i);
        }
      }
      lst[i]
    }

    /** `generator`: an expanding cursor that starts after the primes already found. */
    method Generator() returns (it: PrimeSetIter)
      ensures fresh(it) && it.p == this && it.n == |lst| && it.expand
    {
      it := new PrimeSetIter(this, |lst|, true);
    }

    /** `iter`: an expanding cursor over all primes, starting with 2. */
    method Iter() returns (it: PrimeSetIter)
      ensures fresh(it) && it.p == this && it.n == 0 && it.expand
    {
      it := new PrimeSetIter(this, 0, true);
    }

    /**
     * `find_vec`: the least cached prime not below n, with its index, found by
     * binary search; None when n is above every cached prime. Never expands.
     */
    method FindVec(n: nat) returns (r: Option<(nat, nat)>)
      requires Valid()
      ensures r.None? <==> n > Last()
      ensures r.Some? ==> r.value.0 < |lst| && r.value.1 == lst[r.value.0] && n <= r.value.1
      ensures r.Some? ==> forall j :: 0 <= j < r.value.0 ==> lst[j] < n
      ensures r.Some? ==> (r.value.1 == n <==> n in lst)
      ensures r.Some? ==> Prime(r.value.1) && forall q: nat :: n <= q < r.value.1 ==> !Prime(q)
    {
      if n > lst[|lst| - 1] {
        return None;
      }
      var base: nat := 0;
      var lim: nat := |lst|;
      while lim != 0
        invariant base + lim <= |lst|
        invariant forall j :: 0 <= j < base ==> lst[j] < n
        invariant forall j :: base + lim <= j < |lst| ==> lst[j] > n
        decreases lim
      {
        var idx := base + lim / 2;
        if lst[idx] == n {
          LeastPrimeAtLeast(lst, n, idx);
          return Some((idx, lst[idx]));
        } else if lst[idx] < n {
          base := idx + 1;
          lim := lim - 1;
        }
        lim := lim / 2;
      }
      LeastPrimeAtLeast(lst, n, base);
      return Some((base, lst[base]));
    }

    /**
     * `find`: expands the cache until its last prime reaches n, then answers
     * as FindVec does. The cache grows no further than that prime.
     */
    method Find(n: nat) returns (idx: nat, p: nat)
      requires Valid()
      modifies this
      ensures Valid()
      ensures |lst| >= |old(lst)| && lst[..|old(lst)|] == old(lst)
      ensures n <= old(Last()) ==> lst == old(lst)
      ensures n <= Last()
      ensures idx < |lst| && p == lst[idx] && n <= p
      ensures forall j :: 0 <= j < idx ==> lst[j] < n
      ensures Prime(p) && forall q: nat :: n <= q < p ==> !Prime(q)
      ensures |lst| > |old(lst)| ==> idx == |lst| - 1
    {
      while n > lst[|lst| - 1]
        invariant Valid()
        invariant |lst| >= |old(lst)| && lst[..|old(lst)|] == old(lst)
        invariant |lst| > |old(lst)| ==> lst[|lst| - 2] < n
        decreases n - lst[|lst| - 1]
      {
        ghost var before := lst;
        Expand();
        assert lst[..|old(lst)|] == before[..|old(lst)|];
      }
      var r := FindVec(n);
      idx, p := r.value.0, r.value.1;
    }

    /** `get`: the prime at position index, expanding the cache as often as needed. */
    method Get(index: nat) returns (r: nat)
      requires Valid()
      modifies this
      ensures Valid()
      ensures |lst| == if index < |old(lst)| then |old(lst)| else index + 1
      ensures lst[..|old(lst)|] == old(lst)
      ensures r == lst[index]
      ensures Prime(r) && forall q: nat :: Prime(q) && q < r <==> q in lst[..index]
    {
      var count: int := index + 1 - |lst|;
      var k := 0;
      while k < count
        invariant 0 <= k <= (if count > 0 then count else 0)
        invariant Valid()
        invariant |lst| == |old(lst)| + k && lst[..|old(lst)|] == old(lst)
      {
        ghost var before := lst;
        Expand();
        assert lst[..|old(lst)|] == before[..|old(lst)|];
        k := k + 1;
      }
      PrimePrefixIndex(lst, index);
      r := lst[index];
    }
  }

  /**
   * The iterator cursor: the cache it reads, the position n of the next
   * prime to yield and whether it may expand the cache.
   */
  class PrimeSetIter {
    const p: TrialDivision
    var n: nat
    const expand: bool

    constructor (p: TrialDivision, n: nat, expand: bool)
      ensures this.p == p && this.n == n && this.expand == expand
    {
      this.p := p;
      this.n := n;
      this.expand := expand;
    }

    /**
     * `next`: the prime at position n, then n advances. An expanding cursor
     * first grows the cache until it reaches position n; a non-expanding one
     * yields None once n is past the cache.
     */
    method Next() returns (r: Option<nat>)
      requires p.Valid()
      modifies this, p
      ensures p.Valid()
      ensures |p.lst| >= |old(p.lst)| && p.lst[..|old(p.lst)|] == old(p.lst)
      ensures expand ==> old(n) < |p.lst| && r == Some(p.lst[old(n)]) && n == old(n) + 1
      ensures expand ==> |p.lst| == if old(n) < |old(p.lst)| then |old(p.lst)| else old(n) + 1
      ensures !expand ==> p.lst == old(p.lst)
      ensures !expand && old(n) < |old(p.lst)| ==> r == Some(old(p.lst)[old(n)]) && n == old(n) + 1
      ensures !expand && old(n) >= |old(p.lst)| ==> r == None && n == old(n)
    {
      while n >= |p.lst|
        invariant p.Valid() && n == old(n)
        invariant |p.lst| >= |old(p.lst)| && p.lst[..|old(p.lst)|] == old(p.lst)
        invariant |p.lst| == |old(p.lst)| || |p.lst| <= n + 1
        invariant !expand ==> p.lst == old(p.lst)
        decreases n + 1 - |p.lst|
      {
        if expand {
          ghost var before := p.lst;
          p.Expand();
          assert p.lst[..|old(p.lst)|] == before[..|old(p.lst)|];
        } else {
          return None;
        }
      }
      n := n + 1;
      r := Some(p.lst[n - 1]);
    }
  }
}
