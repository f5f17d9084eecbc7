# primes — a verified model

A model of the Rust library `primes`. The library generates primes lazily with trial division,
tests primality and factorises numbers. The model has four modules:

- `NumberTheory` (`number_theory.dfy`): divisibility, primality and least factors. It also holds
  Euclid's lemma and the existence of a prime above every number, which is what makes `expand`
  terminate.
- `Sequences` (`sequences.dfy`): sorted sequences and the removal of adjacent duplicates.
- `Factorization` (`factorization.dfy`): the free functions `firstfac`, `is_prime`, `factors`
  and `factors_unique`. `factors` and `factors_unique` are methods with their loops, each proved
  equal to a ghost function with the same recursion (`PrimeFactors`, `DistinctPrimeFactors`).
  The promised properties are proved as lemmas about those functions: product, primality,
  order, completeness and uniqueness. `firstfac` is a method with its loop, proved to return the
  least factor (`IsLeastFactor`). `is_prime` is the same one-line expression as in the source,
  proved equivalent to primality.
- `PrimeCache` (`prime_cache.dfy`): the cache `TrialDivision` as a class with a `seq<nat>` field
  that is only ever extended at the end. The `PrimeSet` query layer (`len`, `find`, `find_vec`,
  `get`, `generator`, `iter`) is modelled as methods on that class, next to the `Index`
  operator. The cursor `PrimeSetIter` is a class that holds a reference to the cache. The class
  invariant `Valid()` (via `PrimePrefix`) says the cache is strictly increasing, holds only
  primes, and has every prime up to its last element.
- `CacheExamples` (`cache_examples.dfy`): clients that reproduce the library's unit tests from
  the contracts alone.

All numbers are unbounded naturals (`nat`), not `u64`.

`firstfac` returns 2 for 0 (0 is even) and 1 for 1 (src/lib.rs:184-193), and `FirstFac` states
exactly that.

## Model

| member | source | states |
|---|---|---|
| NumberTheory.LeastFactorIsPrime | src/lib.rs:182-194 | the least divisor above 1 of a number is prime, so `firstfac` returns a prime |
| NumberTheory.PrimeIffOwnLeastFactor | src/lib.rs:192-193 | x is prime exactly when its least factor is x itself, which justifies "no factor found, it must be prime" |
| NumberTheory.NoSmallPrimeFactor | src/lib.rs:52 | a number with no prime divisor whose square is at most the number is prime, which is why trial division may stop at `n * n > l` |
| NumberTheory.PrimeAbove | src/lib.rs:49-61 | above every number there is a prime, so the candidate search in `expand` ends |
| Factorization.EvenLeastFactor | src/lib.rs:184-186 | 2 is the least factor of an even x >= 2, which is prime only when it is 2 |
| Factorization.FoundFactor | src/lib.rs:187-190 | the first odd trial divisor d with d * d <= x that divides x is its least factor, and x is then not prime |
| Factorization.OddTrialStep | src/lib.rs:187 | stepping the odd trial divisor by 2 skips only an even number, which cannot divide an odd x |
| Factorization.NoFactorBelowRoot | src/lib.rs:192-193 | once the trial divisor's square exceeds x with no divisor found, x is its own least factor and prime |
| Factorization.FirstFac | src/lib.rs:183-194 | for x >= 2 returns the least divisor d >= 2 of x, with d == x iff x is prime; returns 2 for 0 and 1 for 1 |
| Factorization.IsPrime | src/lib.rs:237-239 | true exactly when n is prime, so false for 0 and 1 |
| Factorization.PrimeFactorsDivide | src/lib.rs:197-212 | every element of the factorisation is a prime divisor of x |
| Factorization.PrimeFactorsProduct | src/lib.rs:197-212 | the factorisation of x >= 1 multiplies back to x |
| Factorization.PrimeFactorsSorted | src/lib.rs:197-212 | the factorisation is non-decreasing |
| Factorization.PrimeFactorsComplete | src/lib.rs:197-212 | every prime divisor of x >= 1 occurs in the factorisation |
| Factorization.PrimeFactorsCorrect | src/lib.rs:197-212 | product is x, order is non-decreasing, and membership is exactly "prime divisor of x" |
| Factorization.UniqueFactorization | src/lib.rs:197-212 | any non-decreasing list of primes is the factorisation of its own product: the result of `factors` is the only sorted prime factorisation |
| Factorization.PrimeFactorsStep | src/lib.rs:203-209 | one round of the loop: the least factor d of y heads the factorisation of y, followed by that of y / d, which lies between 2 and y when d < y |
| Factorization.Factors | src/lib.rs:197-212 | returns the factorisation: empty for x <= 1; for x >= 2 sorted, all prime, with product x |
| Factorization.StripFactor | src/lib.rs:226-228 | dividing out d until it no longer divides leaves a divisor of x not divisible by d, smaller than x whenever d divides x |
| Factorization.StripStep | src/lib.rs:226-228 | each division by d leaves a smaller positive number with the same result of stripping d, and the loop's exit leaves the stripped number |
| Factorization.DistinctPrimeFactorsStep | src/lib.rs:221-225 | one round of the outer loop: the least factor d of y heads its distinct factors, followed by those of y stripped of d |
| Factorization.StripKeepsOtherPrimes | src/lib.rs:226-228 | dividing out one prime keeps every other prime divisor |
| Factorization.DistinctPrimeFactorsDivide | src/lib.rs:215-234 | every distinct factor is a prime divisor of x |
| Factorization.DistinctPrimeFactorsSorted | src/lib.rs:215-234 | the distinct factors are strictly increasing |
| Factorization.DistinctPrimeFactorsComplete | src/lib.rs:215-234 | every prime divisor of x >= 1 is among the distinct factors |
| Factorization.DistinctPrimeFactorsCorrect | src/lib.rs:215-234 | strictly increasing, and membership is exactly "prime divisor of x" |
| Factorization.DistinctIsDedupOfFactors | src/lib.rs:215-234 | the distinct factors are the factorisation with adjacent duplicates removed |
| Factorization.FactorsUnique | src/lib.rs:215-234 | returns the distinct prime divisors, strictly increasing, equal to `factors(x)` without duplicates; empty for x <= 1 |
| PrimeCache.PrimePrefixIndex | src/lib.rs:158-163 | in a valid cache, the element at index i is prime and the primes below it are exactly the elements before it, so it is the i-th prime |
| PrimeCache.PrimePrefixExtend | src/lib.rs:57 | appending the next prime, with no prime between, preserves the cache invariant |
| PrimeCache.PrimePrefixTake | tests/unit_tests.rs:13-18 | a fact about the cache invariant: every non-empty prefix of a valid cache is itself a valid cache, which places 11 at index 4 in the `find(10)` test |
| PrimeCache.PrimePrefixAgree | src/lib.rs:46-62 | two valid caches agree on their common length, so the order of primes is fixed whatever the history of expansions |
| PrimeCache.PrimePrefixByLast | src/lib.rs:110-115 | two valid caches with the same last element are equal |
| PrimeCache.CandidateIsPrime | src/lib.rs:50-56 | a candidate above the last cached prime, with no prime in between and not divided by the primes tried, is prime |
| PrimeCache.TrialVerdict | src/lib.rs:50-56 | where the trial division of such a candidate stops, the last remainder is non-zero exactly when the candidate is prime |
| PrimeCache.SearchBound | src/lib.rs:47-61 | the first candidate, last + 2, skips no prime, and a prime above the last one bounds every candidate reached without skipping a prime |
| PrimeCache.CompositeCandidate | src/lib.rs:60 | moving from an odd composite candidate to the next odd one skips no prime |
| PrimeCache.LastIsOdd | src/lib.rs:47 | the last element of a cache of length at least 2 is odd and at least 3, so candidates stay odd |
| PrimeCache.InitialList | src/lib.rs:39-41 | [2, 3] is a valid cache |
| PrimeCache.StartsWithTwoThree | src/lib.rs:39-41 | every valid cache of length at least 2 starts with 2, 3 |
| PrimeCache.LeastPrimeAtLeast | src/lib.rs:122-144 | the first cached element not below n is the least prime not below n |
| PrimeCache.TrialDivision.constructor | src/lib.rs:39-41 | `new` gives the valid cache [2, 3] |
| PrimeCache.TrialDivision.TrialDivide | src/lib.rs:50-55 | for a candidate above the cache that skips no prime, the remainder left by the inner loop is non-zero exactly when the candidate is prime |
| PrimeCache.TrialDivision.NextPrime | src/lib.rs:47-61 | the outer loop returns a prime above the last cached one with no prime between them, without changing the cache |
| PrimeCache.TrialDivision.Expand | src/lib.rs:46-62 | appends exactly one element, leaves the old list as a prefix, the new element is a prime above the old last with no prime between, and the invariant holds again |
| PrimeCache.TrialDivision.List | src/lib.rs:65-67 | the cached list, which is a valid cache starting 2, 3 |
| PrimeCache.TrialDivision.Len | src/lib.rs:72-74 | the length of the list, at least 2 |
| PrimeCache.TrialDivision.IsEmpty | src/lib.rs:76-78 | true iff the list is empty, never for a valid cache |
| PrimeCache.TrialDivision.Index | src/lib.rs:158-163 | the element at i, which is the i-th prime |
| PrimeCache.TrialDivision.Generator | src/lib.rs:81-88 | an expanding cursor on this cache at the current length |
| PrimeCache.TrialDivision.Iter | src/lib.rs:92-98 | an expanding cursor on this cache at position 0 |
| PrimeCache.TrialDivision.FindVec | src/lib.rs:122-144 | None iff n is above the last cached prime; otherwise the least index whose element is at least n, with that element, which is n iff n is cached and is the least prime not below n; the list is not changed |
| PrimeCache.TrialDivision.Find | src/lib.rs:110-115 | expands only while the last prime is below n and keeps the old list as a prefix; afterwards returns the least index and prime not below n; if anything was added, the prime returned is the new last element |
| PrimeCache.TrialDivision.Get | src/lib.rs:147-152 | length becomes max(old length, index + 1), the old list is kept as a prefix, and the result is the element at index, which is the index-th prime |
| PrimeCache.PrimeSetIter.constructor | src/lib.rs:83-87 | a cursor with the given cache, position and expand flag |
| PrimeCache.PrimeSetIter.Next | src/lib.rs:165-179 | an expanding cursor always yields the element at its old position, advances by one and grows the cache only as far as that position; a non-expanding one leaves the cache alone and yields None once past its end |
| CacheExamples.FirstNineArePrime | tests/unit_tests.rs:23 | each of 2, 3, 5, 7, 11, 13, 17, 19, 23 is prime |
| CacheExamples.FirstNineComplete | tests/unit_tests.rs:23 | every prime up to 23 is among them |
| CacheExamples.FirstNineIsPrimePrefix | tests/unit_tests.rs:23 | 2, 3, 5, 7, 11, 13, 17, 19, 23 are all the primes up to 23 |
| CacheExamples.FirstNinePrimes | tests/unit_tests.rs:23-26 | every valid cache of nine or more elements begins with those nine primes |
| CacheExamples.ExpandFromNew | tests/unit_tests.rs:4-10 | a new cache has length 2 and one expansion makes it [2, 3, 5] |
| CacheExamples.LeastPrimeFromTen | tests/unit_tests.rs:17 | the least prime not below 10 is 11 |
| CacheExamples.IndexOfEleven | tests/unit_tests.rs:15 | in a valid cache, 11 sits at index 4 |
| CacheExamples.FindTen | tests/unit_tests.rs:13-18 | `find(10)` on a new cache returns (4, 11) |
| CacheExamples.IterFirstNine | tests/unit_tests.rs:20-27 | the first nine values from `iter` on a new cache are 2, 3, 5, ..., 23 |
| CacheExamples.GeneratorFromNew | src/lib.rs:80-88 | the first value from `generator` on a new cache is 5, the first prime not yet found |
| CacheExamples.FindThenFindVec | tests/unit_tests.rs:29-51 | for every n: `find_vec(n)` on a new cache is None iff n > 3; then `find(p)` repeats the answer (i, p) of `find(n)`, `find_vec(n)` now gives it too, and when the cache grew its length is i + 1 and its last element is p |

## Left out

- Fixed-width arithmetic: values are unbounded naturals. The `u64` overflow of `n * n` in `expand` (src/lib.rs:52) and of `m * m` and `2 * m + 1` in `firstfac` (src/lib.rs:187) near 2^64 is not modelled.
- The `Default` and `Clone` derives (src/lib.rs:26) are not modelled. The empty cache from `Default` panics in `expand` and is excluded by `Valid()`, so every query requires a cache built by `new`.
- `iter_vec` (src/lib.rs:101-103) returns the standard slice iterator over `list()`, so `List` stands for it.
- The traits `PrimeSetBasics` and `PrimeSet` and the blanket implementation (src/lib.rs:13-19, 70, 156) are not modelled as traits. Their methods are methods of `TrialDivision`.
- The borrow `&'a mut P` in `PrimeSetIter` is modelled as an object reference. The cursor's `Next` names the cache in its `modifies` clause.
- The `(1..).map(..).take_while(..)` iterator in `firstfac` is modelled as a `while` loop over odd d from 3.
- `expand` is split into three methods. `TrialDivision.TrialDivide` is its inner `for` loop and `TrialDivision.NextPrime` its outer `loop`. `TrialDivision.Expand` makes the push that ends the loop, just after `NextPrime` returns. The behaviour is the same.
- PrimeCache.TrialDivision.Index: an out-of-range `index` panics in the source (src/lib.rs:161); here `i < |lst|` is a precondition instead.
- PrimeCache.TrialDivision.TrialDivide: returns only the remainder, as the source's loop leaves it. The index at which the trial stopped is local to the loop.
- CacheExamples.FindThenFindVec: does not prove the concrete values `find(1000) == (168, 1009)` of the unit test, because that needs a primality certificate for each of the 168 primes up to 1009. It proves the same relations between the calls for every n instead.
- CacheExamples.IterFirstNine: the test's `zip` with a nine-element array is modelled as nine calls of `Next`.
- The non-expanding cursor (expand = false) is never constructed by the library; `PrimeSetIter.Next` still states its behaviour.
