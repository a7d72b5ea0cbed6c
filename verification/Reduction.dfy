/** The scenarios a reducer moves between, and what removing a dependency closure keeps. */
module Reduction {
  import opened Cardinality
  import opened Scenario
  import opened StepGraph
  import opened Text

  datatype Value = Text(text: string) | Number(number: real) | Other(json: string)

  type Data = map<string, Value>

  /** The parts of a scenario that a reduction changes: event payloads by name, and the steps. */
  datatype Spec = Spec(events: map<string, Data>, steps: seq<Step>)

  /** The dependency graph of any list of steps; steps sharing an id share their dependencies. */
  ghost function DependencyGraph(steps: seq<Step>): Graph
  {
    map id | id in Elements(Ids(steps)) :: DependenciesOf(steps, id)
  }

  ghost function DependenciesOf(steps: seq<Step>, id: string): set<string>
  {
    set i, d | 0 <= i < |steps| && steps[i].id == id && d in steps[i].dependsOn :: d
  }

  lemma DependencyEdge(steps: seq<Step>, i: nat, d: string)
    requires i < |steps| && d in steps[i].dependsOn
    ensures steps[i].id in DependencyGraph(steps) && d in DependencyGraph(steps)[steps[i].id]
  {
    assert steps[i].id == Ids(steps)[i];
  }

  lemma EdgeDependency(steps: seq<Step>, id: string, d: string) returns (i: nat)
    requires id in DependencyGraph(steps) && d in DependencyGraph(steps)[id]
    ensures i < |steps| && steps[i].id == id && d in steps[i].dependsOn
  {
    i :| 0 <= i < |steps| && steps[i].id == id && d in steps[i].dependsOn;
  }

  /* ---------- the closure of what is removed ---------- */

  /** A seed, or a step that transitively depends on one. */
  ghost predicate Doomed(steps: seq<Step>, seeds: set<string>, id: string)
  {
    id in seeds || exists seed :: seed in seeds && Ancestor(DependencyGraph(steps), seed, id)
  }

  ghost predicate SaturatedAt(steps: seq<Step>, removed: set<string>, i: nat)
    requires i < |steps|
  {
    (exists d :: d in steps[i].dependsOn && d in removed) ==> steps[i].id in removed
  }

  ghost predicate Saturated(steps: seq<Step>, removed: set<string>)
  {
    forall i :: 0 <= i < |steps| ==> SaturatedAt(steps, removed, i)
  }

  lemma {:induction false} SaturatedHoldsDescendants(steps: seq<Step>, removed: set<string>, seed: string, id: string, p: seq<string>)
    requires Saturated(steps, removed) && seed in removed && PathFrom(DependencyGraph(steps), p, id, seed)
    ensures id in removed
    decreases |p|
  {
    var g := DependencyGraph(steps);
    assert p[0] in g && p[0 + 1] in g[p[0]];
    if |p| > 2 {
      var q := p[1..];
      forall i | 0 <= i < |q| - 1
        ensures q[i] in g && q[i + 1] in g[q[i]]
      {
        assert q[i] == p[i + 1] && q[i + 1] == p[i + 1 + 1];
      }
      SaturatedHoldsDescendants(steps, removed, seed, p[1], q);
    }
    var i := EdgeDependency(steps, id, p[1]);
    assert SaturatedAt(steps, removed, i);
  }

  lemma DoomedByDependency(steps: seq<Step>, seeds: set<string>, i: nat, d: string)
    requires i < |steps| && d in steps[i].dependsOn && Doomed(steps, seeds, d)
    ensures Doomed(steps, seeds, steps[i].id)
  {
    hide DependencyGraph, Ancestor;
    var g := DependencyGraph(steps);
    DependencyEdge(steps, i, d);
    AncestorByEdge(g, steps[i].id, d);
    if d !in seeds {
      var seed :| seed in seeds && Ancestor(g, seed, d);
      AncestorTransitive(g, seed, d, steps[i].id);
    }
  }

  lemma SaturatedIsDoomed(steps: seq<Step>, seeds: set<string>, removed: set<string>)
    requires seeds <= removed && Saturated(steps, removed)
    requires forall id :: id in removed ==> Doomed(steps, seeds, id)
    ensures forall id :: id in removed <==> Doomed(steps, seeds, id)
  {
    hide DependencyGraph, Saturated;
    forall id | Doomed(steps, seeds, id)
      ensures id in removed
    {
      if id !in seeds {
        var seed :| seed in seeds && Ancestor(DependencyGraph(steps), seed, id);
        var p :| PathFrom(DependencyGraph(steps), p, id, seed);
        SaturatedHoldsDescendants(steps, removed, seed, id, p);
      }
    }
  }

  predicate DependsOnAny(s: Step, removed: set<string>)
  {
    exists d :: d in s.dependsOn && d in removed
  }

  method FindRemoved(s: Step, removed: set<string>) returns (found: bool)
    ensures found <==> DependsOnAny(s, removed)
  {
    for j := 0 to |s.dependsOn|
      invariant forall k :: 0 <= k < j ==> s.dependsOn[k] !in removed
    {
      if s.dependsOn[j] in removed {
        return true;
      }
    }
    return false;
  }

  /** The fixpoint removes exactly the seeds and the steps that transitively depend on one. */
  method CloseOver(steps: seq<Step>, seeds: set<string>) returns (removed: set<string>)
    ensures forall id :: id in removed <==> Doomed(steps, seeds, id)
  {
    hide Doomed;
    ghost var ids := Elements(Ids(steps));
    assert forall id :: id in seeds ==> Doomed(steps, seeds, id) by { SeedsAreDoomed(steps, seeds); }
    removed := seeds;
    var changed := true;
    while changed
      invariant seeds <= removed && forall id :: id in removed ==> Doomed(steps, seeds, id)
      invariant !changed ==> Saturated(steps, removed)
      decreases ids - removed, changed
    {
      changed := false;
      ghost var before := removed;
      for i := 0 to |steps|
        invariant before <= removed && forall id :: id in removed ==> Doomed(steps, seeds, id)
        invariant !changed ==> removed == before && forall j :: 0 <= j < i ==> SaturatedAt(steps, removed, j)
        invariant changed ==> ids - removed < ids - before
      {
        var candidate := steps[i];
        if candidate.id !in removed {
          var found := FindRemoved(candidate, removed);
          if found {
            var d :| d in candidate.dependsOn && d in removed;
            DoomedByDependency(steps, seeds, i, d);
            assert Ids(steps)[i] in ids;
            removed := removed + {candidate.id};
            changed := true;
          }
        }
      }
    }
    SaturatedIsDoomed(steps, seeds, removed);
  }

  lemma SeedsAreDoomed(steps: seq<Step>, seeds: set<string>)
    ensures forall id :: id in seeds ==> Doomed(steps, seeds, id)
  {}

  /* ---------- survivors ---------- */

  /** The steps of a list that the closure in the whole scenario leaves. */
  ghost function SurvivorsOf(part: seq<Step>, steps: seq<Step>, seeds: set<string>): seq<Step>
  {
    if part == [] then []
    else
      var last := part[|part| - 1];
      SurvivorsOf(part[..|part| - 1], steps, seeds) + (if Doomed(steps, seeds, last.id) then [] else [last])
  }

  ghost function Published(steps: seq<Step>): set<string>
  {
    set i | 0 <= i < |steps| && steps[i].action.Publish? :: steps[i].action.event
  }

  /** The scenario without the closure of the seeds and without the events that no step publishes any more. */
  ghost function Without(s: Spec, seeds: set<string>): Spec
  {
    var kept := SurvivorsOf(s.steps, s.steps, seeds);
    Spec(map name | name in s.events && name in Published(kept) :: s.events[name], kept)
  }

  method PruneEvents(s: Spec) returns (pruned: Spec)
    ensures pruned.steps == s.steps
    ensures pruned.events == map name | name in s.events && name in Published(s.steps) :: s.events[name]
  {
    var used: set<string> := {};
    for i := 0 to |s.steps|
      invariant used == Published(s.steps[..i])
    {
      PublishedNext(s.steps, i);
      if s.steps[i].action.Publish? {
        used := used + {s.steps[i].action.event};
      }
    }
    assert s.steps[..|s.steps|] == s.steps;
    hide Published;
    var events := s.events;
    var remaining := s.events.Keys;
    while remaining != {}
      invariant remaining <= s.events.Keys
      invariant events == map name | name in s.events && (name in remaining || name in used) :: s.events[name]
      decreases |remaining|
    {
      var name :| name in remaining;
      if name !in used {
        events := events - {name};
      }
      remaining := remaining - {name};
    }
    pruned := Spec(events, s.steps);
  }

  lemma PublishedNext(steps: seq<Step>, i: nat)
    requires i < |steps|
    ensures Published(steps[..i + 1]) ==
            Published(steps[..i]) + (if steps[i].action.Publish? then {steps[i].action.event} else {})
  {
    var before, after := steps[..i], steps[..i + 1];
    assert after[i] == steps[i] && forall j :: 0 <= j < i ==> after[j] == before[j];
    forall e | e in Published(before)
      ensures e in Published(after)
    {
      var j :| 0 <= j < i && before[j].action.Publish? && before[j].action.event == e;
      assert after[j].action.event == e;
    }
  }

  method RemoveClosure(s: Spec, seeds: set<string>) returns (proposal: Spec)
    ensures proposal == Without(s, seeds)
  {
    hide Doomed, Published;
    var removed := CloseOver(s.steps, seeds);
    var kept := [];
    for i := 0 to |s.steps|
      invariant kept == SurvivorsOf(s.steps[..i], s.steps, seeds)
    {
      assert s.steps[..i + 1][..i] == s.steps[..i];
      if s.steps[i].id !in removed {
        kept := kept + [s.steps[i]];
      }
    }
    assert s.steps[..|s.steps|] == s.steps;
    proposal := PruneEvents(s.(steps := kept));
  }

  /* ---------- what survives ---------- */

  lemma {:induction false} SurvivorsMember(part: seq<Step>, steps: seq<Step>, seeds: set<string>, x: Step)
    ensures x in SurvivorsOf(part, steps, seeds) <==> x in part && !Doomed(steps, seeds, x.id)
  {
    hide Doomed;
    if part != [] {
      var init, last := part[..|part| - 1], part[|part| - 1];
      assert part == init + [last];
      SurvivorsMember(init, steps, seeds, x);
    }
  }

  /** Where the survivors come from: strictly increasing positions of the given steps. */
  ghost predicate PicksFrom(picks: seq<nat>, kept: seq<Step>, steps: seq<Step>)
  {
    && |picks| == |kept|
    && (forall k :: 0 <= k < |picks| ==> picks[k] < |steps| && kept[k] == steps[picks[k]])
    && forall j, k :: 0 <= j < k < |picks| ==> picks[j] < picks[k]
  }

  lemma {:induction false} SurvivorsKeepOrder(part: seq<Step>, steps: seq<Step>, seeds: set<string>) returns (picks: seq<nat>)
    ensures PicksFrom(picks, SurvivorsOf(part, steps, seeds), part)
  {
    hide Doomed;
    if part == [] {
      picks := [];
    } else {
      var last := |part| - 1;
      picks := SurvivorsKeepOrder(part[..last], steps, seeds);
      if !Doomed(steps, seeds, part[last].id) {
        picks := picks + [last];
      }
    }
  }

  lemma {:induction false} SurvivorsShrink(part: seq<Step>, steps: seq<Step>, seeds: set<string>)
    ensures |SurvivorsOf(part, steps, seeds)| <= |part|
    ensures (exists x :: x in part && x.id in seeds) ==> |SurvivorsOf(part, steps, seeds)| < |part|
  {
    if part != [] {
      var init, last := part[..|part| - 1], part[|part| - 1];
      assert part == init + [last];
      SurvivorsShrink(init, steps, seeds);
    }
  }

  /** The graph of the survivors is the part of the graph that is not doomed. */
  lemma SurvivorGraph(steps: seq<Step>, seeds: set<string>, id: string)
    ensures var kept := SurvivorsOf(steps, steps, seeds);
            && (id in DependencyGraph(kept) <==> id in DependencyGraph(steps) && !Doomed(steps, seeds, id))
            && (id in DependencyGraph(kept) ==> DependencyGraph(kept)[id] == DependencyGraph(steps)[id])
  {
    hide Doomed, SurvivorsOf;
    var kept := SurvivorsOf(steps, steps, seeds);
    if id in Ids(kept) {
      var i :| 0 <= i < |kept| && kept[i].id == id;
      SurvivorsMember(steps, steps, seeds, kept[i]);
      var j :| 0 <= j < |steps| && steps[j] == kept[i];
      assert Ids(steps)[j] == id;
      SurvivorDependencies(steps, seeds, id);
    }
    if id in Ids(steps) && !Doomed(steps, seeds, id) {
      var i :| 0 <= i < |steps| && steps[i].id == id;
      SurvivorsMember(steps, steps, seeds, steps[i]);
      var j :| 0 <= j < |kept| && kept[j] == steps[i];
      assert Ids(kept)[j] == id;
    }
  }

  lemma SurvivorDependencies(steps: seq<Step>, seeds: set<string>, id: string)
    requires !Doomed(steps, seeds, id)
    ensures DependenciesOf(SurvivorsOf(steps, steps, seeds), id) == DependenciesOf(steps, id)
  {
    hide Doomed, SurvivorsOf;
    var kept := SurvivorsOf(steps, steps, seeds);
    forall d
      ensures d in DependenciesOf(kept, id) <==> d in DependenciesOf(steps, id)
    {
      if d in DependenciesOf(kept, id) {
        var i :| 0 <= i < |kept| && kept[i].id == id && d in kept[i].dependsOn;
        SurvivorsMember(steps, steps, seeds, kept[i]);
        var j :| 0 <= j < |steps| && steps[j] == kept[i];
      }
      if d in DependenciesOf(steps, id) {
        var j :| 0 <= j < |steps| && steps[j].id == id && d in steps[j].dependsOn;
        SurvivorsMember(steps, steps, seeds, steps[j]);
        var i :| 0 <= i < |kept| && kept[i] == steps[j];
      }
    }
  }

  lemma SurvivorAncestor(steps: seq<Step>, seeds: set<string>, a: string, id: string)
    requires Ancestor(DependencyGraph(SurvivorsOf(steps, steps, seeds)), a, id)
    ensures Ancestor(DependencyGraph(steps), a, id)
  {
    hide DependencyGraph, SurvivorsOf, Doomed;
    var kept, g := DependencyGraph(SurvivorsOf(steps, steps, seeds)), DependencyGraph(steps);
    var p :| PathFrom(kept, p, id, a);
    forall i | 0 <= i < |p| - 1
      ensures p[i] in g && p[i + 1] in g[p[i]]
    {
      assert p[i] in kept && p[i + 1] in kept[p[i]];
      SurvivorGraph(steps, seeds, p[i]);
    }
    assert PathFrom(g, p, id, a);
  }

  /** Removing a closure keeps a scenario dependency-closed and acyclic, whatever the seeds. */
  lemma SurvivorsAreWellFormed(steps: seq<Step>, seeds: set<string>)
    ensures var g, kept := DependencyGraph(steps), DependencyGraph(SurvivorsOf(steps, steps, seeds));
            (Closed(g) ==> Closed(kept)) && (Acyclic(g) ==> Acyclic(kept))
  {
    hide DependencyGraph, SurvivorsOf, Doomed, Ancestor;
    var g, kept := DependencyGraph(steps), DependencyGraph(SurvivorsOf(steps, steps, seeds));
    if Closed(g) {
      forall id | id in kept
        ensures kept[id] <= kept.Keys
      {
        SurvivorGraph(steps, seeds, id);
        forall d | d in kept[id]
          ensures d in kept
        {
          SurvivorGraph(steps, seeds, d);
          if Doomed(steps, seeds, d) {
            var i := EdgeDependency(steps, id, d);
            DoomedByDependency(steps, seeds, i, d);
          }
        }
      }
    }
    if Acyclic(g) {
      forall id | Ancestor(kept, id, id)
        ensures false
      {
        SurvivorAncestor(steps, seeds, id, id);
      }
    }
  }

  /** Exactly the steps without a seed among themselves and their ancestors stay, and exactly the events that
      one of them publishes. */
  lemma RemovalIsExact(s: Spec, seeds: set<string>)
    ensures forall x :: x in Without(s, seeds).steps <==>
              x in s.steps && x.id !in seeds && forall seed :: seed in seeds ==> !Ancestor(DependencyGraph(s.steps), seed, x.id)
    ensures forall name :: name in Without(s, seeds).events <==>
              name in s.events && exists x :: x in s.steps && !Doomed(s.steps, seeds, x.id) && x.action.Publish? && x.action.event == name
    ensures forall name :: name in Without(s, seeds).events ==> Without(s, seeds).events[name] == s.events[name]
  {
    hide DependencyGraph, SurvivorsOf, Ancestor;
    var kept := SurvivorsOf(s.steps, s.steps, seeds);
    forall x
      ensures x in kept <==> x in s.steps && !Doomed(s.steps, seeds, x.id)
    {
      SurvivorsMember(s.steps, s.steps, seeds, x);
    }
    forall name
      ensures name in Published(kept) <==> exists x :: x in kept && x.action.Publish? && x.action.event == name
    {
      if x :| x in kept && x.action.Publish? && x.action.event == name {
        var i :| 0 <= i < |kept| && kept[i] == x;
        assert kept[i].action.event == name;
      }
    }
  }
}
