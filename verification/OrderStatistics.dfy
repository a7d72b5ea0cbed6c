/** Sorting of real samples and the monotonicity of order statistics. */
module OrderStatistics {

  predicate Ascending(s: seq<real>)
  {
    forall i, j :: 0 <= i < j < |s| ==> s[i] <= s[j]
  }

  function Insert(x: real, s: seq<real>): (t: seq<real>)
    ensures |t| == |s| + 1
  {
    if s == [] || x <= s[0] then [x] + s else [s[0]] + Insert(x, s[1..])
  }

  function Sorted(s: seq<real>): (t: seq<real>)
    ensures |t| == |s|
  {
    if s == [] then [] else Insert(s[0], Sorted(s[1..]))
  }

  function Min(a: real, b: real): real { if a <= b then a else b }

  function Max(a: real, b: real): real { if a <= b then b else a }

  /** The k-th element after an insertion, by its neighbours before it. */
  function InsertedAt(x: real, s: seq<real>, k: nat): real
    requires k <= |s|
  {
    var capped := if k < |s| then Min(x, s[k]) else x;
    if k > 0 then Max(s[k - 1], capped) else capped
  }

  lemma {:induction false} InsertAt(x: real, s: seq<real>, k: nat)
    requires Ascending(s) && k <= |s|
    ensures Insert(x, s)[k] == InsertedAt(x, s, k)
  {
    if s == [] || x <= s[0] {
    } else if k > 0 {
      InsertAt(x, s[1..], k - 1);
    }
  }

  lemma {:induction false} InsertIsPermutation(x: real, s: seq<real>)
    ensures multiset(Insert(x, s)) == multiset(s) + multiset{x}
  {
    if s == [] || x <= s[0] {
    } else {
      InsertIsPermutation(x, s[1..]);
      assert s == [s[0]] + s[1..];
    }
  }

  lemma InsertIsAscending(x: real, s: seq<real>)
    requires Ascending(s)
    ensures Ascending(Insert(x, s))
  {
    hide Insert;
    forall i, j | 0 <= i < j <= |s|
      ensures Insert(x, s)[i] <= Insert(x, s)[j]
    {
      InsertAt(x, s, i);
      InsertAt(x, s, j);
    }
  }

  lemma {:induction false} SortedIsAscendingPermutation(s: seq<real>)
    ensures Ascending(Sorted(s))
    ensures multiset(Sorted(s)) == multiset(s)
  {
    if s != [] {
      SortedIsAscendingPermutation(s[1..]);
      InsertIsAscending(s[0], Sorted(s[1..]));
      InsertIsPermutation(s[0], Sorted(s[1..]));
      assert s == [s[0]] + s[1..];
    }
  }

  predicate Below(s: seq<real>, t: seq<real>)
  {
    |s| == |t| && forall i :: 0 <= i < |s| ==> s[i] <= t[i]
  }

  /** Raising samples never lowers an order statistic, whatever the new order of the samples is. */
  lemma {:induction false} SortedIsMonotone(s: seq<real>, t: seq<real>)
    requires Below(s, t)
    ensures Below(Sorted(s), Sorted(t))
  {
    if s != [] {
      SortedIsMonotone(s[1..], t[1..]);
      SortedIsAscendingPermutation(s[1..]);
      SortedIsAscendingPermutation(t[1..]);
      forall k | 0 <= k < |s|
        ensures Sorted(s)[k] <= Sorted(t)[k]
      {
        InsertAt(s[0], Sorted(s[1..]), k);
        InsertAt(t[0], Sorted(t[1..]), k);
      }
    }
  }

  lemma SortedStaysWithin(s: seq<real>, low: real, high: real, k: nat)
    requires forall i :: 0 <= i < |s| ==> low <= s[i] <= high
    requires k < |s|
    ensures low <= Sorted(s)[k] <= high
  {
    SortedIsAscendingPermutation(s);
    assert Sorted(s)[k] in multiset(Sorted(s));
    assert Sorted(s)[k] in multiset(s);
    assert Sorted(s)[k] in s;
  }

  /* ---------- sums and means ---------- */

  function RealSum(s: seq<real>): real
  {
    if s == [] then 0.0 else RealSum(s[..|s| - 1]) + s[|s| - 1]
  }

  lemma {:induction false} RealSumIsMonotone(s: seq<real>, t: seq<real>)
    requires Below(s, t)
    ensures RealSum(s) <= RealSum(t)
  {
    if s != [] {
      RealSumIsMonotone(s[..|s| - 1], t[..|t| - 1]);
    }
  }

  lemma {:induction false} RealSumStaysWithin(s: seq<real>, low: real, high: real)
    requires forall i :: 0 <= i < |s| ==> low <= s[i] <= high
    ensures low * |s| as real <= RealSum(s) <= high * |s| as real
  {
    if s != [] {
      RealSumStaysWithin(s[..|s| - 1], low, high);
      var n := (|s| - 1) as real;
      assert |s| as real == n + 1.0;
      assert low * |s| as real == low * n + low;
      assert high * |s| as real == high * n + high;
    }
  }

  function Mean(s: seq<real>): real
    requires s != []
  {
    RealSum(s) / |s| as real
  }

  lemma DivideOrder(a: real, b: real, d: real)
    requires a <= b && d > 0.0
    ensures a / d <= b / d
  {
    assert (b - a) / d >= 0.0;
    assert b / d == a / d + (b - a) / d;
  }

  lemma DivideStrictly(a: real, b: real, d: real)
    requires a < b && d > 0.0
    ensures a / d < b / d
  {
    assert (b - a) / d > 0.0;
    assert b / d == a / d + (b - a) / d;
  }

  lemma MeanIsMonotone(s: seq<real>, t: seq<real>)
    requires s != [] && Below(s, t)
    ensures Mean(s) <= Mean(t)
  {
    RealSumIsMonotone(s, t);
    DivideOrder(RealSum(s), RealSum(t), |s| as real);
  }

  lemma MeanStaysWithin(s: seq<real>, low: real, high: real)
    requires s != [] && forall i :: 0 <= i < |s| ==> low <= s[i] <= high
    ensures low <= Mean(s) <= high
  {
    var n := |s| as real;
    RealSumStaysWithin(s, low, high);
    DivideOrder(low * n, RealSum(s), n);
    DivideOrder(RealSum(s), high * n, n);
    assert low * n / n == low && high * n / n == high;
  }

  /* ---------- nearest rank ---------- */

  function Ceiling(x: real): int { -((-x).Floor) }

  function NearestRankIndex(length: nat, quantile: real): (index: nat)
    requires length > 0
    ensures index < length
  {
    var index := Ceiling(quantile * length as real) - 1;
    if index < 0 then 0 else if index >= length then length - 1 else index
  }

  lemma NearestRankIsMonotone(length: nat, low: real, high: real)
    requires length > 0 && low <= high
    ensures NearestRankIndex(length, low) <= NearestRankIndex(length, high)
  {
    var n := length as real;
    var x, y := low * n, high * n;
    assert y == x + (high - low) * n;
    assert (high - low) * n >= 0.0;
    assert (-y).Floor as real <= -y <= -x < (-x).Floor as real + 1.0;
    assert (-y).Floor < (-x).Floor + 1;
  }

  /** The nearest rank is the least index whose samples up to it make up the quantile. */
  lemma NearestRankIsLeast(length: nat, quantile: real)
    requires length > 0 && 0.0 < quantile <= 1.0
    ensures var k := NearestRankIndex(length, quantile);
            k as real < quantile * length as real <= (k + 1) as real
  {
    var x := quantile * length as real;
    assert 0.0 < x <= length as real;
    var floor := (-x).Floor;
    assert floor as real <= -x < floor as real + 1.0;
  }
}
