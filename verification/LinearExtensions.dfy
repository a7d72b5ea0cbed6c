/** Building linear extensions: regrouping one by ranks, and what must hold in all of them. */
module LinearExtensions {
  import opened StepGraph
  import opened Text
  import opened Cardinality

  type Rank = map<string, nat>

  /** The elements of one rank, in their order. */
  function OfRank(order: seq<string>, rank: Rank, r: nat): seq<string>
  {
    if order == [] then []
    else
      var last := order[|order| - 1];
      OfRank(order[..|order| - 1], rank, r) + (if last in rank && rank[last] == r then [last] else [])
  }

  /** The order with all elements of rank 0 first, then those of rank 1, and so on below n. */
  function Regroup(order: seq<string>, rank: Rank, n: nat): seq<string>
  {
    if n == 0 then [] else Regroup(order, rank, n - 1) + OfRank(order, rank, n - 1)
  }

  lemma {:induction false} OfRankMembers(order: seq<string>, rank: Rank, r: nat, x: string)
    ensures x in OfRank(order, rank, r) <==> x in order && x in rank && rank[x] == r
  {
    if order != [] {
      var init, last := order[..|order| - 1], order[|order| - 1];
      assert order == init + [last];
      OfRankMembers(init, rank, r, x);
    }
  }

  lemma {:induction false} OfRankDistinct(order: seq<string>, rank: Rank, r: nat)
    requires Distinct(order)
    ensures Distinct(OfRank(order, rank, r))
  {
    if order != [] {
      var init, last := order[..|order| - 1], order[|order| - 1];
      OfRankDistinct(init, rank, r);
      OfRankMembers(init, rank, r, last);
      assert forall i :: 0 <= i < |init| ==> init[i] == order[i];
    }
  }

  /** Where an element of a rank comes from, and what precedes it there. */
  lemma {:induction false} OfRankOrigin(order: seq<string>, rank: Rank, r: nat, j: nat) returns (i: nat)
    requires j < |OfRank(order, rank, r)|
    ensures i < |order| && order[i] == OfRank(order, rank, r)[j]
    ensures OfRank(order[..i], rank, r) == OfRank(order, rank, r)[..j]
  {
    var init := order[..|order| - 1];
    if j < |OfRank(init, rank, r)| {
      i := OfRankOrigin(init, rank, r, j);
      assert init[..i] == order[..i];
    } else {
      i := |order| - 1;
    }
  }

  lemma {:induction false} RegroupMembers(order: seq<string>, rank: Rank, n: nat, x: string)
    ensures x in Regroup(order, rank, n) <==> x in order && x in rank && rank[x] < n
  {
    hide OfRank;
    if n != 0 {
      RegroupMembers(order, rank, n - 1, x);
      OfRankMembers(order, rank, n - 1, x);
    }
  }

  lemma {:induction false} RegroupDistinct(order: seq<string>, rank: Rank, n: nat)
    requires Distinct(order)
    ensures Distinct(Regroup(order, rank, n))
  {
    if n != 0 {
      var low, high := Regroup(order, rank, n - 1), OfRank(order, rank, n - 1);
      RegroupDistinct(order, rank, n - 1);
      OfRankDistinct(order, rank, n - 1);
      forall i, j | 0 <= i < |low| && 0 <= j < |high|
        ensures low[i] != high[j]
      {
        RegroupMembers(order, rank, n - 1, low[i]);
        OfRankMembers(order, rank, n - 1, high[j]);
      }
    }
  }

  /** Ranks never fall along the regrouped order. */
  lemma {:induction false} RegroupIsRanked(order: seq<string>, rank: Rank, n: nat, i: nat, j: nat)
    requires i < j < |Regroup(order, rank, n)|
    ensures var o := Regroup(order, rank, n);
            o[i] in rank && o[j] in rank && rank[o[i]] <= rank[o[j]]
  {
    hide OfRank;
    var low, high := Regroup(order, rank, n - 1), OfRank(order, rank, n - 1);
    if j < |low| {
      RegroupIsRanked(order, rank, n - 1, i, j);
    } else {
      OfRankMembers(order, rank, n - 1, high[j - |low|]);
      if i < |low| {
        RegroupMembers(order, rank, n - 1, low[i]);
      } else {
        OfRankMembers(order, rank, n - 1, high[i - |low|]);
      }
    }
  }

  /** Ranks that no dependency exceeds. */
  ghost predicate Monotone(g: Graph, rank: Rank)
  {
    && rank.Keys == g.Keys
    && forall id, d :: id in g && d in g[id] && d in g ==> rank[d] <= rank[id]
  }

  lemma {:induction false} RegroupKeepsDependencies(g: Graph, order: seq<string>, rank: Rank, n: nat)
    requires IsLinearExtension(g, order) && Monotone(g, rank) && Closed(g)
    ensures DependenciesFirst(g, Regroup(order, rank, n))
  {
    if n != 0 {
      var low, high := Regroup(order, rank, n - 1), OfRank(order, rank, n - 1);
      var all := Regroup(order, rank, n);
      RegroupKeepsDependencies(g, order, rank, n - 1);
      forall k | 0 <= k < |all|
        ensures all[k] in g && g[all[k]] <= Elements(all[..k])
      {
        if k < |low| {
          assert all[..k] == low[..k];
        } else {
          HighDependencies(g, order, rank, n, k - |low|);
          assert all[..k] == low + high[..k - |low|];
        }
      }
    }
  }

  lemma HighDependencies(g: Graph, order: seq<string>, rank: Rank, n: nat, j: nat)
    requires IsLinearExtension(g, order) && Monotone(g, rank) && Closed(g)
    requires n > 0 && j < |OfRank(order, rank, n - 1)|
    ensures var low, high := Regroup(order, rank, n - 1), OfRank(order, rank, n - 1);
            high[j] in g && g[high[j]] <= Elements(low + high[..j])
  {
    hide Regroup, OfRank;
    var low, high := Regroup(order, rank, n - 1), OfRank(order, rank, n - 1);
    var i := OfRankOrigin(order, rank, n - 1, j);
    forall d | d in g[order[i]]
      ensures d in low + high[..j]
    {
      HighDependency(g, order, rank, n, j, i, d);
    }
  }

  lemma HighDependency(g: Graph, order: seq<string>, rank: Rank, n: nat, j: nat, i: nat, d: string)
    requires IsLinearExtension(g, order) && Monotone(g, rank) && Closed(g)
    requires n > 0 && j < |OfRank(order, rank, n - 1)| && i < |order| && order[i] == OfRank(order, rank, n - 1)[j]
    requires OfRank(order[..i], rank, n - 1) == OfRank(order, rank, n - 1)[..j]
    requires d in g[order[i]]
    ensures d in Regroup(order, rank, n - 1) || d in OfRank(order, rank, n - 1)[..j]
  {
    hide Regroup, OfRank, Closed;
    OfRankMembers(order, rank, n - 1, order[i]);
    assert d in Elements(order[..i]);
    assert d in order && d in g;
    RegroupMembers(order, rank, n - 1, d);
    OfRankMembers(order[..i], rank, n - 1, d);
  }

  /** Regrouping a linear extension by ranks that no dependency exceeds gives a linear extension. */
  lemma RegroupIsLinearExtension(g: Graph, order: seq<string>, rank: Rank, n: nat)
    requires IsLinearExtension(g, order) && Monotone(g, rank)
    requires forall id :: id in rank ==> rank[id] < n
    ensures IsLinearExtension(g, Regroup(order, rank, n))
  {
    LinearExtensionMeansAcyclic(g, order);
    RegroupDistinct(order, rank, n);
    RegroupKeepsDependencies(g, order, rank, n);
    forall x
      ensures x in Regroup(order, rank, n) <==> x in g
    {
      RegroupMembers(order, rank, n, x);
      assert x in order <==> x in Elements(order);
    }
    assert Elements(Regroup(order, rank, n)) == g.Keys;
  }

  /* ---------- before, in every linear extension ---------- */

  ghost predicate Before(order: seq<string>, a: string, b: string)
  {
    exists i, j :: 0 <= i < j < |order| && order[i] == a && order[j] == b
  }

  lemma AncestorIsBefore(g: Graph, order: seq<string>, a: string, id: string)
    requires IsLinearExtension(g, order) && Ancestor(g, a, id) && id in g
    ensures Before(order, a, id)
  {
    assert id in Elements(order);
    var k :| 0 <= k < |order| && order[k] == id;
    AncestorsComeEarlier(g, order, k, a);
  }

  ghost predicate AlwaysBefore(g: Graph, a: string, b: string)
  {
    forall order :: IsLinearExtension(g, order) ==> Before(order, a, b)
  }

  /** The steps that b needs come first: in some linear extension nothing else precedes b. */
  lemma PullForward(g: Graph, order: seq<string>, b: string) returns (pulled: seq<string>)
    requires IsLinearExtension(g, order) && b in g
    ensures IsLinearExtension(g, pulled)
    ensures forall a :: a in g && Before(pulled, a, b) ==> Ancestor(g, a, b)
  {
    var rank: Rank := map id | id in g :: if id == b || Ancestor(g, id, b) then 0 else 1;
    forall id, d | id in g && d in g[id] && d in g
      ensures rank[d] <= rank[id]
    {
      AncestorByEdge(g, id, d);
      if Ancestor(g, id, b) { AncestorTransitive(g, d, id, b); }
    }
    pulled := Regroup(order, rank, 2);
    RegroupIsLinearExtension(g, order, rank, 2);
    forall a | a in g && Before(pulled, a, b)
      ensures Ancestor(g, a, b)
    {
      var i, j :| 0 <= i < j < |pulled| && pulled[i] == a && pulled[j] == b;
      RegroupIsRanked(order, rank, 2, i, j);
      assert a != b;
    }
  }

  /** The steps that need a come last: in some linear extension nothing else follows a. */
  lemma PushBack(g: Graph, order: seq<string>, a: string) returns (pushed: seq<string>)
    requires IsLinearExtension(g, order) && a in g
    ensures IsLinearExtension(g, pushed)
    ensures forall b :: b in g && Before(pushed, a, b) ==> Ancestor(g, a, b)
  {
    var rank: Rank := map id | id in g :: if id == a || Ancestor(g, a, id) then 1 else 0;
    forall id, d | id in g && d in g[id] && d in g
      ensures rank[d] <= rank[id]
    {
      AncestorByEdge(g, id, d);
      if Ancestor(g, a, d) { AncestorTransitive(g, a, d, id); }
    }
    pushed := Regroup(order, rank, 2);
    RegroupIsLinearExtension(g, order, rank, 2);
    forall b | b in g && Before(pushed, a, b)
      ensures Ancestor(g, a, b)
    {
      var i, j :| 0 <= i < j < |pushed| && pushed[i] == a && pushed[j] == b;
      RegroupIsRanked(order, rank, 2, i, j);
      assert a != b;
    }
  }

  /** On a graph with a linear extension, one step precedes another in all of them exactly when it is an
      ancestor: the ancestor sets say everything about the order that every run keeps. */
  lemma AlwaysBeforeIsAncestor(g: Graph, order: seq<string>, a: string, b: string)
    requires IsLinearExtension(g, order) && a in g && b in g
    ensures AlwaysBefore(g, a, b) <==> Ancestor(g, a, b)
  {
    if Ancestor(g, a, b) {
      forall other | IsLinearExtension(g, other)
        ensures Before(other, a, b)
      {
        AncestorIsBefore(g, other, a, b);
      }
    } else {
      var pulled := PullForward(g, order, b);
    }
  }

  ghost predicate SomeBefore(order: seq<string>, pool: set<string>, b: string)
  {
    exists a :: a in pool && Before(order, a, b)
  }

  ghost predicate SomeAfter(order: seq<string>, a: string, pool: set<string>)
  {
    exists b :: b in pool && Before(order, a, b)
  }

  /** Some step of a set comes earlier in every linear extension, not always the same one, exactly when one
      of them is an ancestor. */
  lemma SomeBeforeIsSomeAncestor(g: Graph, order: seq<string>, pool: set<string>, b: string)
    requires IsLinearExtension(g, order) && pool <= g.Keys && b in g
    ensures (forall o :: IsLinearExtension(g, o) ==> SomeBefore(o, pool, b)) <==> exists a :: a in pool && Ancestor(g, a, b)
  {
    if a :| a in pool && Ancestor(g, a, b) {
      forall o | IsLinearExtension(g, o)
        ensures SomeBefore(o, pool, b)
      {
        AncestorIsBefore(g, o, a, b);
      }
    } else {
      var pulled := PullForward(g, order, b);
      assert !SomeBefore(pulled, pool, b);
    }
  }

  lemma SomeAfterIsSomeDescendant(g: Graph, order: seq<string>, a: string, pool: set<string>)
    requires IsLinearExtension(g, order) && pool <= g.Keys && a in g
    ensures (forall o :: IsLinearExtension(g, o) ==> SomeAfter(o, a, pool)) <==> exists b :: b in pool && Ancestor(g, a, b)
  {
    if b :| b in pool && Ancestor(g, a, b) {
      forall o | IsLinearExtension(g, o)
        ensures SomeAfter(o, a, pool)
      {
        AncestorIsBefore(g, o, a, b);
      }
    } else {
      var pushed := PushBack(g, order, a);
      assert !SomeAfter(pushed, a, pool);
    }
  }
}
