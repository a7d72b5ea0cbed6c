/** Dependency graphs, ancestors by paths, cycles, and linear extensions. */
module StepGraph {
  import opened Text
  import opened Cardinality

  /** Every step id with the set of ids it depends on. */
  type Graph = map<string, set<string>>

  ghost predicate IsPath(g: Graph, p: seq<string>)
  {
    forall i :: 0 <= i < |p| - 1 ==> p[i] in g && p[i + 1] in g[p[i]]
  }

  ghost predicate PathFrom(g: Graph, p: seq<string>, from: string, to: string)
  {
    |p| >= 2 && p[0] == from && p[|p| - 1] == to && IsPath(g, p)
  }

  /** `ancestor` is reached from `id` by one or more dependency edges. */
  ghost predicate Ancestor(g: Graph, ancestor: string, id: string)
  {
    exists p :: PathFrom(g, p, id, ancestor)
  }

  ghost predicate Acyclic(g: Graph)
  {
    forall id :: !Ancestor(g, id, id)
  }

  ghost predicate Closed(g: Graph)
  {
    forall id :: id in g ==> g[id] <= g.Keys
  }

  lemma AncestorByEdge(g: Graph, id: string, dependency: string)
    requires id in g && dependency in g[id]
    ensures Ancestor(g, dependency, id)
  {
    assert PathFrom(g, [id, dependency], id, dependency);
  }

  lemma AncestorTransitive(g: Graph, a: string, b: string, c: string)
    requires Ancestor(g, a, b) && Ancestor(g, b, c)
    ensures Ancestor(g, a, c)
  {
    var p :| PathFrom(g, p, b, a);
    var q :| PathFrom(g, q, c, b);
    var r := q + p[1..];
    forall i | 0 <= i < |r| - 1
      ensures r[i] in g && r[i + 1] in g[r[i]]
    {
      if i >= |q| - 1 {
        assert r[i] == p[i - (|q| - 1)] && r[i + 1] == p[i - (|q| - 1) + 1];
      }
    }
    assert PathFrom(g, r, c, a);
  }

  /** The first edge of a path. */
  lemma AncestorFirstEdge(g: Graph, a: string, id: string) returns (dependency: string)
    requires Ancestor(g, a, id)
    ensures id in g && dependency in g[id]
    ensures a == dependency || Ancestor(g, a, dependency)
  {
    var p :| PathFrom(g, p, id, a);
    dependency := p[1];
    assert p[0] in g && p[0 + 1] in g[p[0]];
    if |p| > 2 {
      var q := p[1..];
      forall i | 0 <= i < |q| - 1
        ensures q[i] in g && q[i + 1] in g[q[i]]
      {
        assert q[i] == p[i + 1] && q[i + 1] == p[i + 1 + 1];
      }
      assert PathFrom(g, q, dependency, a);
    }
  }

  /* ---------- linear extensions ---------- */

  /** Every dependency comes earlier. */
  ghost predicate DependenciesFirst(g: Graph, order: seq<string>)
  {
    forall k :: 0 <= k < |order| ==> order[k] in g && g[order[k]] <= Elements(order[..k])
  }

  /** A linear extension of the graph: all its steps once, each after its dependencies. */
  ghost predicate IsLinearExtension(g: Graph, order: seq<string>)
  {
    Distinct(order) && Elements(order) == g.Keys && DependenciesFirst(g, order)
  }

  /** In a linear extension every ancestor comes earlier. */
  lemma {:induction false} AncestorsComeEarlier(g: Graph, order: seq<string>, k: nat, a: string)
    requires DependenciesFirst(g, order) && k < |order| && Ancestor(g, a, order[k])
    ensures a in Elements(order[..k])
    decreases k
  {
    var d := AncestorFirstEdge(g, a, order[k]);
    assert d in Elements(order[..k]);
    if a != d {
      var j :| 0 <= j < k && order[j] == d;
      AncestorsComeEarlier(g, order, j, a);
    }
  }

  lemma LinearExtensionMeansAcyclic(g: Graph, order: seq<string>)
    requires IsLinearExtension(g, order)
    ensures Acyclic(g) && Closed(g)
  {
    forall id | Ancestor(g, id, id)
      ensures false
    {
      var d := AncestorFirstEdge(g, id, id);
      var k :| 0 <= k < |order| && order[k] == id;
      AncestorsComeEarlier(g, order, k, id);
    }
    forall id | id in g
      ensures g[id] <= g.Keys
    {
      var k :| 0 <= k < |order| && order[k] == id;
      assert Elements(order[..k]) <= Elements(order);
    }
  }

  /* ---------- stuck sets are cyclic ---------- */

  ghost predicate Stuck(g: Graph, stuck: set<string>)
  {
    forall id :: id in stuck ==> id in g && g[id] * stuck != {}
  }

  /** A walk that stays in a stuck set, as long as wanted. */
  lemma {:induction false} StuckWalk(g: Graph, stuck: set<string>, start: string, n: nat) returns (p: seq<string>)
    requires Stuck(g, stuck) && start in stuck
    ensures |p| == n + 1 && IsPath(g, p) && forall i :: 0 <= i < |p| ==> p[i] in stuck
    decreases n
  {
    if n == 0 {
      p := [start];
    } else {
      var q := StuckWalk(g, stuck, start, n - 1);
      var last := q[|q| - 1];
      var d :| d in g[last] * stuck;
      p := q + [d];
    }
  }

  lemma RepeatedNode(p: seq<string>, pool: set<string>) returns (i: nat, j: nat)
    requires |p| > |pool| && forall k :: 0 <= k < |p| ==> p[k] in pool
    ensures i < j < |p| && p[i] == p[j]
  {
    if Distinct(p) {
      DistinctSeqCardinality(p);
      SubsetIsNoLarger((set x | x in p), pool);
      assert false;
    }
    i, j :| 0 <= i < j < |p| && p[i] == p[j];
  }

  lemma StuckMeansCycle(g: Graph, stuck: set<string>)
    requires Stuck(g, stuck) && stuck != {}
    ensures !Acyclic(g)
  {
    var start :| start in stuck;
    var p := StuckWalk(g, stuck, start, |stuck|);
    var i, j := RepeatedNode(p, stuck);
    var q := p[i..j + 1];
    forall k | 0 <= k < |q| - 1
      ensures q[k] in g && q[k + 1] in g[q[k]]
    {
      assert q[k] == p[i + k] && q[k + 1] == p[i + k + 1];
    }
    assert q[0] == p[i] && q[|q| - 1] == p[j] == p[i];
    assert PathFrom(g, q, p[i], p[i]);
    assert Ancestor(g, p[i], p[i]);
  }

  /* ---------- the least linear extension ---------- */

  /** A step whose dependencies are all done and that is not done itself. */
  ghost predicate Available(g: Graph, done: set<string>, id: string)
  {
    id in g && id !in done && g[id] <= done
  }

  ghost predicate Least(g: Graph, done: set<string>, id: string)
  {
    Available(g, done, id) && forall other :: Available(g, done, other) ==> Leq(id, other)
  }

  /** Every step is the least available one. */
  ghost predicate Greedy(g: Graph, order: seq<string>)
  {
    forall k :: 0 <= k < |order| ==> Least(g, Elements(order[..k]), order[k])
  }

  lemma GreedyIsDistinct(g: Graph, order: seq<string>)
    requires Greedy(g, order)
    ensures Distinct(order) && DependenciesFirst(g, order)
  {
    forall i, j | 0 <= i < j < |order|
      ensures order[i] != order[j]
    {
      assert Least(g, Elements(order[..j]), order[j]);
      assert order[..j][i] == order[i];
    }
    forall k | 0 <= k < |order|
      ensures order[k] in g && g[order[k]] <= Elements(order[..k])
    {
      assert Least(g, Elements(order[..k]), order[k]);
    }
  }

  /** Equal, or smaller at the first difference. */
  ghost predicate LexLeq(a: seq<string>, b: seq<string>)
  {
    a == b || exists k :: FirstDifference(a, b, k) && Leq(a[k], b[k])
  }

  ghost predicate FirstDifference(a: seq<string>, b: seq<string>, k: int)
  {
    0 <= k < |a| && k < |b| && a[..k] == b[..k] && a[k] != b[k]
  }

  lemma {:induction false} FindDifference(a: seq<string>, b: seq<string>, from: nat) returns (k: int)
    requires |a| == |b| && from <= |a| && a[..from] == b[..from] && a != b
    ensures FirstDifference(a, b, k)
    decreases |a| - from
  {
    assert a[..|a|] == a && b[..|b|] == b;
    if a[from] != b[from] {
      k := from;
    } else {
      assert a[..from + 1] == a[..from] + [a[from]] && b[..from + 1] == b[..from] + [b[from]];
      k := FindDifference(a, b, from + 1);
    }
  }

  lemma SameLength(g: Graph, a: seq<string>, b: seq<string>)
    requires IsLinearExtension(g, a) && IsLinearExtension(g, b)
    ensures |a| == |b| == |g|
  {
    DistinctSeqCardinality(a);
    DistinctSeqCardinality(b);
  }

  /** The greedy order is the lexicographically least linear extension. */
  lemma GreedyIsLeast(g: Graph, order: seq<string>, other: seq<string>)
    requires Greedy(g, order) && IsLinearExtension(g, order) && IsLinearExtension(g, other)
    ensures LexLeq(order, other)
  {
    SameLength(g, order, other);
    if order != other {
      assert order[..0] == other[..0];
      var k := FindDifference(order, other, 0);
      assert Least(g, Elements(order[..k]), order[k]);
      assert other[k] !in Elements(other[..k]);
      assert Available(g, Elements(other[..k]), other[k]);
    }
  }

  /** Steps that can run in the order of their ids do. */
  lemma AscendingIsGreedy(g: Graph, order: seq<string>)
    requires IsLinearExtension(g, order) && Ascending(order)
    ensures Greedy(g, order)
  {
    forall k | 0 <= k < |order|
      ensures Least(g, Elements(order[..k]), order[k])
    {
      assert forall j :: 0 <= j < k ==> order[..k][j] == order[j];
      forall id | Available(g, Elements(order[..k]), id)
        ensures Leq(order[k], id)
      {
        assert id in Elements(order);
        var j :| 0 <= j < |order| && order[j] == id;
        LeqReflexive(id);
      }
    }
  }

  /** So it is determined by the graph alone. */
  lemma GreedyIsUnique(g: Graph, a: seq<string>, b: seq<string>)
    requires Greedy(g, a) && IsLinearExtension(g, a)
    requires Greedy(g, b) && IsLinearExtension(g, b)
    ensures a == b
  {
    SameLength(g, a, b);
    if a != b {
      assert a[..0] == b[..0];
      var k := FindDifference(a, b, 0);
      assert Least(g, Elements(a[..k]), a[k]) && Least(g, Elements(b[..k]), b[k]);
      LeqAntisymmetric(a[k], b[k]);
    }
  }

  /** A greedy order that leaves no step available leaves exactly the steps that a cycle or a missing
      dependency holds back. */
  lemma GreedyCompletes(g: Graph, order: seq<string>)
    requires Greedy(g, order)
    requires forall id :: !Available(g, Elements(order), id)
    ensures IsLinearExtension(g, order) <==> Closed(g) && Acyclic(g)
    ensures IsLinearExtension(g, order) <==> |order| == |g|
  {
    GreedyIsDistinct(g, order);
    DistinctSeqCardinality(order);
    assert Elements(order) <= g.Keys;
    var left := g.Keys - Elements(order);
    if IsLinearExtension(g, order) {
      LinearExtensionMeansAcyclic(g, order);
    }
    if left == {} {
      assert forall id :: id in g.Keys && id !in Elements(order) ==> id in left;
    } else {
      var x :| x in left;
      ProperSubsetIsSmaller(Elements(order), g.Keys, x);
      if Closed(g) {
        forall id | id in left
          ensures g[id] * left != {}
        {
          assert !Available(g, Elements(order), id);
          var d :| d in g[id] && d !in Elements(order);
          assert d in g[id] * left;
        }
        StuckMeansCycle(g, left);
      }
    }
  }
}
