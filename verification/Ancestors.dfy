/** The two depth-first searches over the step graph: the validator's, which detects cycles, and the
    engine's, which has no guard and relies on the graph being acyclic. */
module Ancestors {
  import opened StepGraph
  import opened Text
  import opened Scenario
  import opened Cardinality

  /** The dependency graph without the dependencies that name no step; the validator reports those
      separately and skips them here. */
  function KnownGraph(m: map<string, Step>): Graph
  {
    map id | id in m :: DependencySet(m[id]) * m.Keys
  }

  lemma KnownGraphOfClosed(m: map<string, Step>)
    requires Closed(GraphOf(m))
    ensures KnownGraph(m) == GraphOf(m)
  {
    var g, k := GraphOf(m), KnownGraph(m);
    forall id | id in m
      ensures g[id] == k[id]
    {
      assert g[id] <= g.Keys == m.Keys;
    }
  }

  ghost predicate IsAncestorSet(g: Graph, id: string, ancestors: set<string>)
  {
    forall a :: a in ancestors <==> Ancestor(g, a, id)
  }

  /** The steps a search has finished are closed under dependencies, carry their strict ancestors, and
      lie on no cycle. */
  ghost predicate MemoInv(g: Graph, memo: map<string, set<string>>)
  {
    forall id :: id in memo ==> id in g && g[id] <= memo.Keys && IsAncestorSet(g, id, memo[id]) && id !in memo[id]
  }

  ghost predicate CycleReachable(g: Graph, id: string)
  {
    Ancestor(g, id, id) || exists x :: Ancestor(g, x, id) && Ancestor(g, x, x)
  }

  lemma {:induction false} MemoIsClosed(g: Graph, memo: map<string, set<string>>, id: string, a: string, p: seq<string>)
    requires MemoInv(g, memo) && id in memo && PathFrom(g, p, id, a)
    ensures a in memo
    decreases |p|
  {
    assert p[0] in g && p[0 + 1] in g[p[0]];
    if |p| > 2 {
      var q := p[1..];
      forall i | 0 <= i < |q| - 1
        ensures q[i] in g && q[i + 1] in g[q[i]]
      {
        assert q[i] == p[i + 1] && q[i + 1] == p[i + 1 + 1];
      }
      MemoIsClosed(g, memo, p[1], a, q);
    }
  }

  /** The dependencies seen so far and their ancestors. */
  ghost predicate Gathered(g: Graph, memo: map<string, set<string>>, seen: set<string>, gathered: set<string>)
    requires seen <= memo.Keys
  {
    forall a :: a in gathered <==> a in seen || exists d :: d in seen && a in memo[d]
  }

  lemma GatheredIsAncestorSet(g: Graph, memo: map<string, set<string>>, id: string, gathered: set<string>)
    requires MemoInv(g, memo) && id in g && g[id] <= memo.Keys && Gathered(g, memo, g[id], gathered)
    ensures IsAncestorSet(g, id, gathered)
    ensures id !in memo ==> id !in gathered
  {
    forall a
      ensures a in gathered <==> Ancestor(g, a, id)
    {
      if a in gathered {
        if a in g[id] {
          AncestorByEdge(g, id, a);
        } else {
          var d :| d in g[id] && a in memo[d];
          AncestorByEdge(g, id, d);
          AncestorTransitive(g, a, d, id);
        }
      }
      if Ancestor(g, a, id) {
        var d := AncestorFirstEdge(g, a, id);
        assert d in memo;
      }
    }
    if id !in memo && id in gathered {
      var d :| d in g[id] && id in memo[d];
      var p :| PathFrom(g, p, d, id);
      MemoIsClosed(g, memo, d, id, p);
      assert false;
    }
  }

  lemma Remember(g: Graph, memo: map<string, set<string>>, id: string, gathered: set<string>)
    requires MemoInv(g, memo) && id in g && id !in memo && g[id] <= memo.Keys && Gathered(g, memo, g[id], gathered)
    ensures MemoInv(g, memo[id := gathered])
  {
    GatheredIsAncestorSet(g, memo, id, gathered);
  }

  lemma GatherNext(g: Graph, before: map<string, set<string>>, memo: map<string, set<string>>, seen: set<string>,
                   gathered: set<string>, d: string)
    requires seen <= before.Keys && Gathered(g, before, seen, gathered)
    requires before.Keys <= memo.Keys && forall x :: x in before ==> memo[x] == before[x]
    requires d in memo
    ensures Gathered(g, memo, seen + {d}, gathered + {d} + memo[d])
  {}

  lemma CycleThroughDependency(g: Graph, id: string, d: string)
    requires id in g && d in g[id] && CycleReachable(g, d)
    ensures CycleReachable(g, id)
  {
    AncestorByEdge(g, id, d);
    if !Ancestor(g, d, d) {
      var x :| Ancestor(g, x, d) && Ancestor(g, x, x);
      AncestorTransitive(g, x, d, id);
    }
  }

  lemma FinishedMeansAcyclic(g: Graph, memo: map<string, set<string>>)
    requires MemoInv(g, memo) && g.Keys <= memo.Keys
    ensures Acyclic(g)
  {
    forall id | Ancestor(g, id, id)
      ensures id in g
    {
      var d := AncestorFirstEdge(g, id, id);
    }
  }

  /** The validator's search: memoised, with a mark on the steps being visited. */
  class CycleSearch {
    const steps: map<string, Step>
    var ancestors: map<string, set<string>>
    var visiting: set<string>

    ghost predicate Valid()
      reads this
    {
      MemoInv(KnownGraph(steps), ancestors) && visiting <= steps.Keys && visiting !! ancestors.Keys
    }

    constructor (steps: map<string, Step>)
      ensures Valid() && this.steps == steps && ancestors == map[] && visiting == {}
    {
      this.steps := steps;
      ancestors, visiting := map[], {};
    }

    method Visit(id: string) returns (found: set<string>, cycle: bool)
      requires Valid() && id in steps
      requires forall v :: v in visiting ==> Ancestor(KnownGraph(steps), id, v)
      modifies this
      ensures cycle ==> CycleReachable(KnownGraph(steps), id)
      ensures !cycle ==> Valid() && visiting == old(visiting) && id in ancestors && found == ancestors[id]
      ensures !cycle ==> old(ancestors.Keys) <= ancestors.Keys && forall x :: x in old(ancestors) ==> ancestors[x] == old(ancestors)[x]
      decreases steps.Keys - visiting
    {
      hide MemoInv, Gathered, CycleReachable, Ancestor;
      ghost var g := KnownGraph(steps);
      if id in ancestors {
        return ancestors[id], false;
      }
      if id in visiting {
        CycleFound(g, id);
        return {}, true;
      }
      visiting := visiting + {id};
      found := {};
      var dependencies := steps[id].dependsOn;
      assert Elements(dependencies[..0]) * steps.Keys == {};
      GatheredNothing(g, ancestors);
      for i := 0 to |dependencies|
        invariant Valid() && visiting == old(visiting) + {id}
        invariant old(ancestors.Keys) <= ancestors.Keys
        invariant forall x :: x in old(ancestors) ==> ancestors[x] == old(ancestors)[x]
        invariant Elements(dependencies[..i]) * steps.Keys <= ancestors.Keys
        invariant Gathered(g, ancestors, Elements(dependencies[..i]) * steps.Keys, found)
      {
        var dependency := dependencies[i];
        ghost var seen := Elements(dependencies[..i]) * steps.Keys;
        ghost var before := ancestors;
        assert dependencies[..i + 1] == dependencies[..i] + [dependency];
        if dependency in steps {
          assert Elements(dependencies[..i + 1]) * steps.Keys == seen + {dependency};
          assert dependency in g[id];
          DependencyOfVisiting(g, visiting, id, dependency);
          var parents, nested := Visit(dependency);
          if nested {
            CycleThroughDependency(g, id, dependency);
            return {}, true;
          }
          GatherNext(g, before, ancestors, seen, found, dependency);
          found := found + {dependency} + parents;
        } else {
          assert Elements(dependencies[..i + 1]) * steps.Keys == seen;
        }
      }
      assert dependencies[..|dependencies|] == dependencies;
      assert g[id] == Elements(dependencies) * steps.Keys;
      Remember(g, ancestors, id, found);
      visiting := visiting - {id};
      ancestors := ancestors[id := found];
      cycle := false;
    }
  }

  lemma CycleFound(g: Graph, id: string)
    requires Ancestor(g, id, id)
    ensures CycleReachable(g, id)
  {}

  lemma GatheredNothing(g: Graph, memo: map<string, set<string>>)
    ensures Gathered(g, memo, {}, {})
  {}

  lemma DependencyOfVisiting(g: Graph, visiting: set<string>, id: string, dependency: string)
    requires id in g && dependency in g[id]
    requires forall v :: v in visiting && v != id ==> Ancestor(g, id, v)
    ensures forall v :: v in visiting ==> Ancestor(g, dependency, v)
    ensures Ancestor(g, dependency, id)
  {
    AncestorByEdge(g, id, dependency);
    forall v | v in visiting
      ensures Ancestor(g, dependency, v)
    {
      if v != id { AncestorTransitive(g, dependency, id, v); }
    }
  }

  datatype CycleReport = NoCycle | CycleAt(id: string)

  /** A cycle is reported exactly when there is one; otherwise every step has its strict ancestors.  The
      reported step reaches a cycle but need not lie on one: which step is reported depends on the order
      of the map. */
  method DependencyAncestors(steps: map<string, Step>) returns (ancestors: map<string, set<string>>, report: CycleReport)
    ensures report.NoCycle? <==> Acyclic(KnownGraph(steps))
    ensures report.NoCycle? ==> ancestors.Keys == steps.Keys
    ensures report.NoCycle? ==> forall id :: id in steps ==> IsAncestorSet(KnownGraph(steps), id, ancestors[id])
    ensures report.CycleAt? ==> report.id in steps && CycleReachable(KnownGraph(steps), report.id)
  {
    ghost var g := KnownGraph(steps);
    var search := new CycleSearch(steps);
    var remaining := steps.Keys;
    while remaining != {}
      invariant remaining <= steps.Keys
      invariant search.Valid() && search.steps == steps && search.visiting == {}
      invariant steps.Keys - remaining <= search.ancestors.Keys
      decreases |remaining|
    {
      var id :| id in remaining;
      var _, cycle := search.Visit(id);
      if cycle {
        return map[], CycleAt(id);
      }
      remaining := remaining - {id};
    }
    FinishedMeansAcyclic(g, search.ancestors);
    ancestors, report := search.ancestors, NoCycle;
  }

  /* ---------- the engine's search ---------- */

  ghost function Nodes(g: Graph): set<string>
  {
    g.Keys + set id, d | id in g && d in g[id] :: d
  }

  ghost function AncestorSet(g: Graph, id: string): (s: set<string>)
    ensures IsAncestorSet(g, id, s)
  {
    forall a | Ancestor(g, a, id) ensures a in Nodes(g) {
      AncestorIsNode(g, a, id);
    }
    set a | a in Nodes(g) && Ancestor(g, a, id)
  }

  lemma AncestorIsNode(g: Graph, a: string, id: string)
    requires Ancestor(g, a, id)
    ensures a in Nodes(g)
  {
    var p :| PathFrom(g, p, id, a);
    assert p[|p| - 2] in g && p[|p| - 2 + 1] in g[p[|p| - 2]];
  }

  /** On an acyclic graph a dependency has strictly fewer ancestors. */
  lemma AncestorSetShrinks(g: Graph, id: string, d: string)
    requires Acyclic(g) && id in g && d in g[id]
    ensures AncestorSet(g, d) < AncestorSet(g, id)
  {
    AncestorByEdge(g, id, d);
    forall a | a in AncestorSet(g, d)
      ensures a in AncestorSet(g, id)
    {
      AncestorTransitive(g, a, d, id);
    }
    assert d in AncestorSet(g, id) && d !in AncestorSet(g, d);
  }

  /** The dependencies taken so far and their ancestors. */
  ghost predicate Collected(g: Graph, dependencies: seq<string>, found: set<string>)
  {
    forall a :: a in found <==> exists d :: d in dependencies && (a == d || a in AncestorSet(g, d))
  }

  lemma CollectNothing(g: Graph)
    ensures Collected(g, [], {})
  {}

  lemma CollectNext(g: Graph, dependencies: seq<string>, found: set<string>, d: string)
    requires Collected(g, dependencies, found)
    ensures Collected(g, dependencies + [d], found + {d} + AncestorSet(g, d))
  {
    hide AncestorSet;
    var next, all := dependencies + [d], found + {d} + AncestorSet(g, d);
    forall a
      ensures a in all <==> exists e :: e in next && (a == e || a in AncestorSet(g, e))
    {
      if a in all {
        if a in found {
          var e :| e in dependencies && (a == e || a in AncestorSet(g, e));
          assert e in next;
        } else {
          assert d in next;
        }
      }
    }
  }

  /** The engine's search: memoised, unguarded, terminating because the graph is acyclic. */
  class AncestorCollector {
    const byId: map<string, Step>
    var result: map<string, set<string>>

    ghost predicate Valid()
      reads this
    {
      forall id :: id in result ==> result[id] == AncestorSet(GraphOf(byId), id)
    }

    constructor (byId: map<string, Step>)
      ensures Valid() && this.byId == byId && result == map[]
    {
      this.byId := byId;
      result := map[];
    }

    method Collect(id: string) returns (found: set<string>)
      requires Valid() && Acyclic(GraphOf(byId))
      modifies this
      ensures Valid() && id in result && found == result[id] == AncestorSet(GraphOf(byId), id)
      ensures old(result.Keys) <= result.Keys
      decreases AncestorSet(GraphOf(byId), id)
    {
      hide AncestorSet, Collected;
      ghost var g := GraphOf(byId);
      if id in result {
        return result[id];
      }
      found := {};
      var dependencies := if id in byId then byId[id].dependsOn else [];
      assert dependencies[..0] == [];
      CollectNothing(g);
      for i := 0 to |dependencies|
        invariant Valid() && old(result.Keys) <= result.Keys
        invariant Collected(g, dependencies[..i], found)
      {
        var dependency := dependencies[i];
        ghost var before := found;
        assert dependencies[..i + 1] == dependencies[..i] + [dependency];
        assert dependency in g[id];
        AncestorSetShrinks(g, id, dependency);
        var nested := Collect(dependency);
        found := found + {dependency} + nested;
        CollectNext(g, dependencies[..i], before, dependency);
      }
      assert dependencies[..|dependencies|] == dependencies;
      CollectedAll(g, id, dependencies, found);
      result := result[id := found];
    }
  }

  lemma CollectedAll(g: Graph, id: string, dependencies: seq<string>, found: set<string>)
    requires if id in g then g[id] == Elements(dependencies) else dependencies == []
    requires Collected(g, dependencies, found)
    ensures found == AncestorSet(g, id)
  {
    forall a
      ensures a in found <==> Ancestor(g, a, id)
    {
      if a in found {
        var d :| d in dependencies && (a == d || a in AncestorSet(g, d));
        AncestorByEdge(g, id, d);
        if a != d { AncestorTransitive(g, a, d, id); }
      }
      if Ancestor(g, a, id) {
        var d := AncestorFirstEdge(g, a, id);
        assert d in dependencies;
      }
    }
  }

  method EngineAncestors(steps: seq<Step>) returns (result: map<string, set<string>>)
    requires Acyclic(GraphOf(ById(steps)))
    ensures forall id :: id in ById(steps) ==> id in result && IsAncestorSet(GraphOf(ById(steps)), id, result[id])
  {
    var byId := ById(steps);
    var collector := new AncestorCollector(byId);
    var remaining := byId.Keys;
    while remaining != {}
      invariant remaining <= byId.Keys
      invariant collector.Valid() && collector.byId == byId
      invariant byId.Keys - remaining <= collector.result.Keys
      decreases |remaining|
    {
      var id :| id in remaining;
      var _ := collector.Collect(id);
      remaining := remaining - {id};
    }
    result := collector.result;
  }

  /** On dependency-closed graphs both searches compute the same sets, and the validator reports a cycle
      exactly when the topological order fails on unique ids. */
  lemma SearchesAgree(steps: seq<Step>, validator: map<string, set<string>>, engine: map<string, set<string>>, id: string)
    requires Closed(GraphOf(ById(steps))) && Acyclic(GraphOf(ById(steps))) && id in ById(steps)
    requires id in validator && IsAncestorSet(KnownGraph(ById(steps)), id, validator[id])
    requires id in engine && IsAncestorSet(GraphOf(ById(steps)), id, engine[id])
    ensures validator[id] == engine[id]
  {
    KnownGraphOfClosed(ById(steps));
    forall a
      ensures a in validator[id] <==> a in engine[id]
    {
      assert a in validator[id] <==> Ancestor(GraphOf(ById(steps)), a, id);
    }
  }
}
