/**
 * Orderings on sequences of naturals and the removal of consecutive
 * duplicates, used to state what the cache and the factorisations keep.
 */
module Sequences {

  ghost predicate StrictlyIncreasing(s: seq<nat>) {
    forall i, j :: 0 <= i < j < |s| ==> s[i] < s[j]
  }

  ghost predicate NonDecreasing(s: seq<nat>) {
    forall i, j :: 0 <= i < j < |s| ==> s[i] <= s[j]
  }

  /** s with every run of equal adjacent elements reduced to one element. */
  ghost function Dedup(s: seq<nat>): seq<nat>
    decreases |s|
  {
    if |s| <= 1 then s
    else if s[0] == s[1] then Dedup(s[1..])
    else [s[0]] + Dedup(s[1..])
  }

  /** Removing adjacent duplicates from a sorted sequence keeps its elements and makes it strict. */
  lemma {:induction false} DedupOfSorted(s: seq<nat>)
    requires NonDecreasing(s)
    ensures StrictlyIncreasing(Dedup(s))
    ensures forall e :: e in Dedup(s) <==> e in s
    decreases |s|
  {
    if |s| > 1 {
      var t := s[1..];
      assert NonDecreasing(t);
      DedupOfSorted(t);
      assert forall e :: e in s <==> e == s[0] || e in t;
      if s[0] != s[1] {
        var d := Dedup(t);
        forall e | e in d
          ensures s[0] < e
        {
          var j :| 0 <= j < |t| && t[j] == e;
          assert s[1 + j] == e;
        }
        assert Dedup(s) == [s[0]] + d;
        forall i, j | 0 <= i < j < |Dedup(s)|
          ensures Dedup(s)[i] < Dedup(s)[j]
        {
          assert Dedup(s)[j] == d[j - 1];
          if i > 0 {
            assert Dedup(s)[i] == d[i - 1];
          } else {
            assert d[j - 1] in d;
          }
        }
      }
    }
  }

  lemma HeadIn(s: seq<nat>)
    requires s != []
    ensures s[0] in s
  {
  }

  /** A strictly increasing sequence is determined by its set of elements. */
  lemma {:induction false} StrictlyIncreasingUnique(a: seq<nat>, b: seq<nat>)
    requires StrictlyIncreasing(a) && StrictlyIncreasing(b)
    requires forall e :: e in a <==> e in b
    ensures a == b
    decreases |a|
  {
    if a != [] && b != [] {
      assert a[0] in b;
      assert b[0] in a;
      assert a[0] == b[0];
      var a', b' := a[1..], b[1..];
      forall e
        ensures e in a' <==> e in b'
      {
        assert e in a <==> e == a[0] || e in a';
        assert e in b <==> e == b[0] || e in b';
        assert a[0] !in a';
        assert b[0] !in b';
      }
      StrictlyIncreasingUnique(a', b');
      assert a == [a[0]] + a';
      assert b == [b[0]] + b';
    } else if a != [] {
      HeadIn(a);
      assert false;
    } else if b != [] {
      HeadIn(b);
      assert false;
    }
  }
}
