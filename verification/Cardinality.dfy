/** Finite-set facts used by the counting arguments. */
module Cardinality {

  lemma {:induction false} SubsetIsNoLarger<T>(small: set<T>, large: set<T>)
    requires small <= large
    ensures |small| <= |large|
  {
    if small != {} {
      var x :| x in small;
      SubsetIsNoLarger(small - {x}, large - {x});
    }
  }

  lemma ProperSubsetIsSmaller<T>(small: set<T>, large: set<T>, extra: T)
    requires small <= large && extra in large && extra !in small
    ensures |small| < |large|
  {
    SubsetIsNoLarger(small, large - {extra});
  }

  /** The n naturals from low on. */
  ghost function Interval(low: nat, n: nat): (s: set<nat>)
    ensures forall x: nat :: x in s <==> low <= x < low + n
    ensures |s| == n
  {
    if n == 0 then {} else Interval(low, n - 1) + {low + n - 1}
  }

  /** Sets in bijection, given by a function and its inverse, have the same size. */
  lemma {:induction false} BijectionCardinality<A, B>(a: set<A>, b: set<B>, f: A -> B, g: B -> A)
    requires forall x :: x in a ==> f(x) in b && g(f(x)) == x
    requires forall y :: y in b ==> g(y) in a && f(g(y)) == y
    ensures |a| == |b|
  {
    if a == {} {
      assert forall y :: y in b ==> g(y) in a;
    } else {
      var x :| x in a;
      BijectionCardinality(a - {x}, b - {f(x)}, f, g);
    }
  }

  ghost predicate Distinct<T>(s: seq<T>)
  {
    forall i, j :: 0 <= i < j < |s| ==> s[i] != s[j]
  }

  lemma {:induction false} DistinctSeqCardinality<T>(s: seq<T>)
    requires Distinct(s)
    ensures |set x | x in s| == |s|
  {
    if s != [] {
      var init, last := s[..|s| - 1], s[|s| - 1];
      DistinctSeqCardinality(init);
      assert s == init + [last];
      assert (set x | x in s) == (set x | x in init) + {last};
    }
  }

  /** The pigeonhole principle. */
  lemma Pigeonhole(s: seq<nat>, holes: nat)
    requires Distinct(s) && forall i :: 0 <= i < |s| ==> s[i] < holes
    ensures |s| <= holes
  {
    DistinctSeqCardinality(s);
    SubsetIsNoLarger((set x | x in s), Interval(0, holes));
  }

  /** As many distinct naturals below n as there are: every one of them occurs. */
  lemma DistinctFillsRange(s: seq<nat>, missing: nat)
    requires Distinct(s) && forall i :: 0 <= i < |s| ==> s[i] < |s|
    requires missing < |s|
    ensures missing in s
  {
    if missing !in s {
      DistinctSeqCardinality(s);
      SubsetIsNoLarger((set x | x in s), Interval(0, |s|) - {missing});
    }
  }

  lemma VisitOne<T>(all: set<T>, remaining: set<T>, x: T)
    requires x in remaining
    ensures |all - (remaining - {x})| == |all - remaining| + (if x in all then 1 else 0)
  {
    assert all - (remaining - {x}) == if x in all then (all - remaining) + {x} else all - remaining;
  }

  lemma {:induction false} DistinctByCount<T(!new)>(s: seq<T>)
    ensures Distinct(s) <==> forall x :: multiset(s)[x] <= 1
  {
    if s != [] {
      var init, last := s[..|s| - 1], s[|s| - 1];
      assert s == init + [last];
      DistinctByCount(init);
      assert multiset(s) == multiset(init) + multiset{last};
      if Distinct(s) {
        assert last !in init;
      } else if Distinct(init) {
        assert last in init;
        assert multiset(s)[last] > 1;
      } else {
        var x :| multiset(init)[x] > 1;
        assert multiset(s)[x] > 1;
      }
    }
  }

  lemma DistinctCount<T(!new)>(s: seq<T>, x: T)
    requires Distinct(s)
    ensures multiset(s)[x] == if x in s then 1 else 0
  {
    DistinctByCount(s);
    assert x in s <==> x in multiset(s);
  }

  /** A distinct list of as many elements, all taken from a distinct list, is a permutation of it. */
  lemma DistinctSubsetIsPermutation<T(!new)>(a: seq<T>, b: seq<T>)
    requires Distinct(a) && Distinct(b) && |a| == |b|
    requires forall x :: x in a ==> x in b
    ensures multiset(a) == multiset(b)
  {
    var setA, setB := set x | x in a, set x | x in b;
    DistinctSeqCardinality(a);
    DistinctSeqCardinality(b);
    forall x
      ensures multiset(a)[x] == multiset(b)[x]
    {
      DistinctCount(a, x);
      DistinctCount(b, x);
      if x in setB && x !in setA {
        ProperSubsetIsSmaller(setA, setB, x);
      }
    }
  }
}
