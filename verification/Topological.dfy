/** The engine's topological order: counting down unmet dependencies with a sorted ready list. */
module Topological {
  import opened Text
  import opened Cardinality
  import opened StepGraph
  import opened Scenario

  /* ---------- specification of the counters, for any list of steps ---------- */

  function Need(byId: map<string, Step>, id: string): nat
    requires id in byId
  {
    |byId[id].dependsOn|
  }

  /** How often `id` is entered among the dependents of `dependency`. */
  function Feeds(steps: seq<Step>, dependency: string, id: string): nat
  {
    if steps == [] then 0
    else
      var last := steps[|steps| - 1];
      Feeds(steps[..|steps| - 1], dependency, id) + (if last.id == id then multiset(last.dependsOn)[dependency] else 0)
  }

  function Fed(steps: seq<Step>, done: seq<string>, id: string): nat
  {
    if done == [] then 0
    else Fed(steps, done[..|done| - 1], id) + Feeds(steps, done[|done| - 1], id)
  }

  ghost predicate ReadyAt(steps: seq<Step>, done: seq<string>, id: string)
  {
    id in ById(steps) && id !in done && Need(ById(steps), id) <= Fed(steps, done, id)
  }

  ghost predicate LeastReady(steps: seq<Step>, done: seq<string>, id: string)
  {
    ReadyAt(steps, done, id) && forall other :: ReadyAt(steps, done, other) ==> Leq(id, other)
  }

  function DependentsOf(dependents: map<string, seq<string>>, id: string): seq<string>
  {
    if id in dependents then dependents[id] else []
  }

  ghost predicate TablesFor(steps: seq<Step>, byId: map<string, Step>, remaining: map<string, int>, dependents: map<string, seq<string>>)
  {
    && byId == ById(steps)
    && remaining.Keys == byId.Keys
    && (forall id :: id in byId ==> remaining[id] == Need(byId, id))
    && (forall dependency, id :: multiset(DependentsOf(dependents, dependency))[id] == Feeds(steps, dependency, id))
  }

  method AddDependents(s: Step, before: map<string, seq<string>>) returns (dependents: map<string, seq<string>>)
    ensures forall dependency, id ::
      multiset(DependentsOf(dependents, dependency))[id]
        == multiset(DependentsOf(before, dependency))[id] + (if s.id == id then multiset(s.dependsOn)[dependency] else 0)
  {
    dependents := before;
    for i := 0 to |s.dependsOn|
      invariant forall dependency, id ::
        multiset(DependentsOf(dependents, dependency))[id]
          == multiset(DependentsOf(before, dependency))[id] + (if s.id == id then multiset(s.dependsOn[..i])[dependency] else 0)
    {
      var dependency := s.dependsOn[i];
      assert s.dependsOn[..i + 1] == s.dependsOn[..i] + [dependency];
      dependents := dependents[dependency := DependentsOf(dependents, dependency) + [s.id]];
    }
    assert s.dependsOn[..|s.dependsOn|] == s.dependsOn;
  }

  method BuildTables(steps: seq<Step>)
    returns (byId: map<string, Step>, remaining: map<string, int>, dependents: map<string, seq<string>>)
    ensures TablesFor(steps, byId, remaining, dependents)
  {
    byId, remaining, dependents := map[], map[], map[];
    for i := 0 to |steps|
      invariant TablesFor(steps[..i], byId, remaining, dependents)
    {
      var s := steps[i];
      assert steps[..i + 1][..i] == steps[..i] && steps[..i + 1][i] == s;
      byId := byId[s.id := s];
      remaining := remaining[s.id := |s.dependsOn|];
      dependents := AddDependents(s, dependents);
    }
    assert steps[..|steps|] == steps;
  }

  /* ---------- the loop ---------- */

  ghost predicate Counters(steps: seq<Step>, byId: map<string, Step>, remaining: map<string, int>, done: seq<string>)
  {
    remaining.Keys == byId.Keys && forall id :: id in byId ==> remaining[id] == Need(byId, id) - Fed(steps, done, id)
  }

  /** A counter is positive exactly for the steps that are neither done nor ready. */
  ghost predicate Frontier(remaining: map<string, int>, done: seq<string>, ready: seq<string>)
  {
    && Ascending(ready) && Distinct(done + ready)
    && (forall id :: id in done || id in ready ==> id in remaining)
    && (forall id :: id in remaining ==> (remaining[id] <= 0 <==> id in done || id in ready))
  }

  lemma {:induction false} FeedsKnownSteps(steps: seq<Step>, dependency: string, id: string)
    requires Feeds(steps, dependency, id) > 0
    ensures id in ById(steps)
  {
    if steps != [] && steps[|steps| - 1].id != id {
      FeedsKnownSteps(steps[..|steps| - 1], dependency, id);
    }
  }

  lemma AppendReady(remaining: map<string, int>, done: seq<string>, ready: seq<string>, id: string)
    requires Frontier(remaining, done, ready) && id in remaining && remaining[id] == 1
    ensures Frontier(remaining[id := 0], done, Sort(ready + [id]))
  {
    var sorted := Sort(ready + [id]);
    SortIsAscendingPermutation(ready + [id]);
    assert id !in done && id !in ready;
    assert done + (ready + [id]) == (done + ready) + [id];
    PermutationFacts(done, ready + [id], sorted);
  }

  lemma PermutationFacts(done: seq<string>, a: seq<string>, b: seq<string>)
    requires multiset(a) == multiset(b)
    ensures Distinct(done + a) ==> Distinct(done + b)
    ensures forall x :: x in a <==> x in b
  {
    forall x ensures x in a <==> x in b {
      assert x in a <==> x in multiset(a);
      assert x in b <==> x in multiset(b);
    }
    if Distinct(done + a) {
      assert multiset(done + a) == multiset(done + b);
      DistinctByCount(done + a);
      DistinctByCount(done + b);
    }
  }

  method CountDown(waiting: seq<string>, before: map<string, int>, ghost done: seq<string>, readyBefore: seq<string>)
    returns (remaining: map<string, int>, ready: seq<string>)
    requires Frontier(before, done, readyBefore)
    requires forall x :: x in waiting ==> x in before
    ensures remaining.Keys == before.Keys
    ensures forall id :: id in before ==> remaining[id] == before[id] - multiset(waiting)[id]
    ensures Frontier(remaining, done, ready)
  {
    remaining, ready := before, readyBefore;
    for i := 0 to |waiting|
      invariant remaining.Keys == before.Keys
      invariant forall id :: id in before ==> remaining[id] == before[id] - multiset(waiting[..i])[id]
      invariant Frontier(remaining, done, ready)
    {
      var dependent := waiting[i];
      assert waiting[..i + 1] == waiting[..i] + [dependent];
      ghost var counted := remaining;
      remaining := remaining[dependent := remaining[dependent] - 1];
      if remaining[dependent] == 0 {
        AppendReady(counted, done, ready, dependent);
        ready := Sort(ready + [dependent]);
      }
    }
    assert waiting[..|waiting|] == waiting;
  }

  method InitialReady(remaining: map<string, int>) returns (ready: seq<string>)
    requires forall id :: id in remaining ==> remaining[id] >= 0
    ensures Frontier(remaining, [], ready)
  {
    ready := [];
    var unseen := remaining.Keys;
    while unseen != {}
      invariant unseen <= remaining.Keys && Distinct(ready)
      invariant forall id :: id in ready ==> id in remaining && id !in unseen
      invariant forall id :: id in remaining && id !in unseen ==> (remaining[id] <= 0 <==> id in ready)
      decreases |unseen|
    {
      var id :| id in unseen;
      if remaining[id] == 0 {
        ready := ready + [id];
      }
      unseen := unseen - {id};
    }
    SortIsAscendingPermutation(ready);
    assert [] + ready == ready && [] + Sort(ready) == Sort(ready);
    PermutationFacts([], ready, Sort(ready));
    ready := Sort(ready);
  }

  /** The head of the ready list is the least ready step, and popping it keeps the frontier. */
  lemma PopIsLeast(steps: seq<Step>, remaining: map<string, int>, done: seq<string>, ready: seq<string>)
    requires ready != [] && Counters(steps, ById(steps), remaining, done) && Frontier(remaining, done, ready)
    ensures LeastReady(steps, done, ready[0]) && ready[0] in ById(steps)
    ensures Frontier(remaining, done + [ready[0]], ready[1..])
  {
    assert ready == [ready[0]] + ready[1..];
    assert done + ready == (done + [ready[0]]) + ready[1..];
    assert (done + ready)[|done|] == ready[0];
    assert forall i :: 0 <= i < |done| ==> (done + ready)[i] == done[i];
    forall other | ReadyAt(steps, done, other)
      ensures Leq(ready[0], other)
    {
      assert other in ready;
      HeadIsLeast(ready, other);
    }
  }

  lemma FedStep(steps: seq<Step>, done: seq<string>, next: string, id: string)
    ensures Fed(steps, done + [next], id) == Fed(steps, done, id) + Feeds(steps, next, id)
  {
    assert (done + [next])[..|done|] == done;
  }

  lemma ReadyBound(steps: seq<Step>, remaining: map<string, int>, done: seq<string>, ready: seq<string>)
    requires remaining.Keys == ById(steps).Keys && Frontier(remaining, done, ready)
    ensures |done| + |ready| <= |ById(steps)| <= |steps|
  {
    var all := done + ready;
    IdsCount(steps);
    DistinctSeqCardinality(all);
    SubsetIsNoLarger((set x | x in all), ById(steps).Keys);
  }

  ghost predicate GreedilyReady(steps: seq<Step>, order: seq<string>)
  {
    forall k :: 0 <= k < |order| ==> LeastReady(steps, order[..k], order[k])
  }

  lemma GreedilyReadyStep(steps: seq<Step>, order: seq<string>, id: string)
    requires GreedilyReady(steps, order) && LeastReady(steps, order, id)
    ensures GreedilyReady(steps, order + [id])
  {
    var next := order + [id];
    forall k | 0 <= k < |next|
      ensures LeastReady(steps, next[..k], next[k])
    {
      assert next[..k] == order[..k];
      if k == |order| { assert order[..k] == order; }
    }
  }

  /** Counts the popped step's dependents down and appends those that become ready. */
  method Pop(ghost steps: seq<Step>, byId: map<string, Step>, dependents: map<string, seq<string>>, id: string,
             before: map<string, int>, readyBefore: seq<string>, ghost done: seq<string>)
    returns (remaining: map<string, int>, ready: seq<string>)
    requires byId == ById(steps)
    requires forall dependency, x :: multiset(DependentsOf(dependents, dependency))[x] == Feeds(steps, dependency, x)
    requires Counters(steps, byId, before, done) && Frontier(before, done + [id], readyBefore)
    ensures Counters(steps, byId, remaining, done + [id]) && Frontier(remaining, done + [id], ready)
  {
    hide ById, Feeds, Frontier, DependentsOf;
    var waiting := DependentsOf(dependents, id);
    forall x | x in waiting
      ensures x in before
    {
      assert multiset(waiting)[x] > 0;
      FeedsKnownSteps(steps, id, x);
    }
    remaining, ready := CountDown(waiting, before, done + [id], readyBefore);
    forall x | x in byId
      ensures remaining[x] == Need(byId, x) - Fed(steps, done + [id], x)
    {
      FedStep(steps, done, id, x);
    }
  }

  /** Pops steps in order of readiness until none is left. */
  method Drain(steps: seq<Step>, byId: map<string, Step>, counters: map<string, int>, dependents: map<string, seq<string>>)
    returns (ordered: seq<Step>)
    requires TablesFor(steps, byId, counters, dependents)
    ensures forall k :: 0 <= k < |ordered| ==> ordered[k].id in byId && ordered[k] == byId[ordered[k].id]
    ensures GreedilyReady(steps, Ids(ordered))
    ensures forall id :: !ReadyAt(steps, Ids(ordered), id)
    ensures |ordered| <= |byId|
  {
    hide ById, Feeds, LeastReady, DependentsOf, GreedilyReady, Counters, Frontier, Ascending, Distinct;
    NothingOrdered(steps, byId, counters, dependents);
    var remaining := counters;
    var ready := InitialReady(remaining);
    ordered := [];
    assert Ids(ordered) == [];
    while ready != []
      invariant Counters(steps, byId, remaining, Ids(ordered)) && Frontier(remaining, Ids(ordered), ready)
      invariant forall k :: 0 <= k < |ordered| ==> ordered[k].id in byId && ordered[k] == byId[ordered[k].id]
      invariant GreedilyReady(steps, Ids(ordered))
      decreases |steps| - |ordered|
    {
      ghost var done := Ids(ordered);
      CountersCoverSteps(steps, byId, remaining, done);
      ReadyBound(steps, remaining, done, ready);
      PopIsLeast(steps, remaining, done, ready);
      var id := ready[0];
      GreedilyReadyStep(steps, done, id);
      remaining, ready := Pop(steps, byId, dependents, id, remaining, ready[1..], done);
      ordered := ordered + [byId[id]];
      assert Ids(ordered) == done + [id];
    }
    CountersCoverSteps(steps, byId, remaining, Ids(ordered));
    ReadyBound(steps, remaining, Ids(ordered), ready);
    NothingLeft(steps, remaining, Ids(ordered));
  }

  lemma CountersCoverSteps(steps: seq<Step>, byId: map<string, Step>, remaining: map<string, int>, done: seq<string>)
    requires Counters(steps, byId, remaining, done)
    ensures remaining.Keys == byId.Keys
  {}

  lemma NothingOrdered(steps: seq<Step>, byId: map<string, Step>, counters: map<string, int>, dependents: map<string, seq<string>>)
    requires TablesFor(steps, byId, counters, dependents)
    ensures GreedilyReady(steps, []) && Counters(steps, byId, counters, [])
    ensures forall id :: id in counters ==> counters[id] >= 0
  {}

  lemma NothingLeft(steps: seq<Step>, remaining: map<string, int>, done: seq<string>)
    requires Counters(steps, ById(steps), remaining, done) && Frontier(remaining, done, [])
    ensures forall id :: !ReadyAt(steps, done, id)
  {}

  /* ---------- counters and dependencies ---------- */

  /** With unique ids a step's counter reaches zero exactly when all its dependencies are done. */
  lemma {:induction false} FeedsOfUniqueSteps(steps: seq<Step>, dependency: string, i: nat)
    requires UniqueIds(steps) && i < |steps|
    ensures Feeds(steps, dependency, steps[i].id) == multiset(steps[i].dependsOn)[dependency]
  {
    var last := |steps| - 1;
    var init := steps[..last];
    assert forall j :: 0 <= j < last ==> Ids(init)[j] == Ids(steps)[j];
    if i < last {
      assert Ids(steps)[i] != Ids(steps)[last];
      FeedsOfUniqueSteps(init, dependency, i);
    } else if Feeds(init, dependency, steps[i].id) > 0 {
      FeedsKnownSteps(init, dependency, steps[i].id);
    }
  }

  function Missing(dependencies: seq<string>, done: set<string>): nat
  {
    if dependencies == [] then 0
    else
      var last := |dependencies| - 1;
      Missing(dependencies[..last], done) + (if dependencies[last] in done then 0 else 1)
  }

  lemma {:induction false} MissingStep(dependencies: seq<string>, done: set<string>, next: string)
    requires next !in done
    ensures Missing(dependencies, done + {next}) == Missing(dependencies, done) - multiset(dependencies)[next]
  {
    if dependencies != [] {
      var last := |dependencies| - 1;
      assert dependencies == dependencies[..last] + [dependencies[last]];
      MissingStep(dependencies[..last], done, next);
    }
  }

  lemma {:induction false} MissingNone(dependencies: seq<string>, done: set<string>)
    ensures Missing(dependencies, done) == 0 <==> forall d :: d in dependencies ==> d in done
    ensures done == {} ==> Missing(dependencies, done) == |dependencies|
  {
    if dependencies != [] {
      var last := |dependencies| - 1;
      assert dependencies == dependencies[..last] + [dependencies[last]];
      MissingNone(dependencies[..last], done);
    }
  }

  lemma {:induction false} CounterIsMissing(steps: seq<Step>, done: seq<string>, i: nat)
    requires UniqueIds(steps) && i < |steps| && Distinct(done)
    ensures |steps[i].dependsOn| - Fed(steps, done, steps[i].id) == Missing(steps[i].dependsOn, Elements(done))
    decreases |done|
  {
    var dependencies := steps[i].dependsOn;
    if done == [] {
      assert Elements(done) == {};
      MissingNone(dependencies, {});
    } else {
      var init, last := done[..|done| - 1], done[|done| - 1];
      CounterIsMissing(steps, init, i);
      assert done == init + [last];
      assert last !in Elements(init);
      assert Elements(done) == Elements(init) + {last};
      MissingStep(dependencies, Elements(init), last);
      FeedsOfUniqueSteps(steps, last, i);
    }
  }

  lemma ReadyIsAvailable(steps: seq<Step>, done: seq<string>, id: string)
    requires UniqueIds(steps) && Distinct(done)
    ensures ReadyAt(steps, done, id) <==> Available(GraphOf(ById(steps)), Elements(done), id)
  {
    if id in ById(steps) {
      var i :| 0 <= i < |steps| && steps[i] == ById(steps)[id];
      CounterIsMissing(steps, done, i);
      MissingNone(steps[i].dependsOn, Elements(done));
    }
  }

  lemma GreedilyReadyIsDistinct(steps: seq<Step>, order: seq<string>)
    requires GreedilyReady(steps, order)
    ensures Distinct(order)
  {
    forall i, j | 0 <= i < j < |order|
      ensures order[i] != order[j]
    {
      assert LeastReady(steps, order[..j], order[j]);
      assert order[..j][i] == order[i];
    }
  }

  lemma GreedilyReadyIsGreedy(steps: seq<Step>, order: seq<string>)
    requires UniqueIds(steps) && GreedilyReady(steps, order)
    ensures Greedy(GraphOf(ById(steps)), order)
  {
    GreedilyReadyIsDistinct(steps, order);
    forall k | 0 <= k < |order|
      ensures Least(GraphOf(ById(steps)), Elements(order[..k]), order[k])
    {
      forall id {
        ReadyIsAvailable(steps, order[..k], id);
      }
      assert LeastReady(steps, order[..k], order[k]);
    }
  }

  /** The order succeeds exactly on graphs with unique ids, no dangling dependency and no cycle, for any
      list of steps; its result is then the least linear extension. */
  method TopologicalSteps(steps: seq<Step>) returns (ok: bool, ordered: seq<Step>)
    ensures ok <==> UniqueIds(steps) && Closed(GraphOf(ById(steps))) && Acyclic(GraphOf(ById(steps)))
    ensures ok ==> multiset(ordered) == multiset(steps)
    ensures ok ==> IsLinearExtension(GraphOf(ById(steps)), Ids(ordered))
    ensures ok ==> Greedy(GraphOf(ById(steps)), Ids(ordered))
  {
    var byId, counters, dependents := BuildTables(steps);
    ordered := Drain(steps, byId, counters, dependents);
    ok := |ordered| == |steps|;
    IdsCount(steps);
    if UniqueIds(steps) {
      OrderOfUniqueSteps(steps, Ids(ordered));
      if ok {
        SamePermutation(steps, ordered);
      }
    }
    if !ok {
      ordered := [];
    }
  }

  lemma NothingAvailable(steps: seq<Step>, order: seq<string>)
    requires UniqueIds(steps) && Distinct(order)
    requires forall id :: !ReadyAt(steps, order, id)
    ensures forall id :: !Available(GraphOf(ById(steps)), Elements(order), id)
  {
    hide ById, ReadyAt, Available, Distinct, UniqueIds;
    forall id
      ensures !Available(GraphOf(ById(steps)), Elements(order), id)
    {
      ReadyIsAvailable(steps, order, id);
    }
  }

  lemma GraphSize(steps: seq<Step>)
    requires UniqueIds(steps)
    ensures |GraphOf(ById(steps))| == |steps|
  {
    IdsCount(steps);
    var g := GraphOf(ById(steps));
    assert g.Keys == ById(steps).Keys;
    assert |g| == |g.Keys| && |ById(steps)| == |ById(steps).Keys|;
  }

  lemma OrderOfUniqueSteps(steps: seq<Step>, order: seq<string>)
    requires UniqueIds(steps) && GreedilyReady(steps, order)
    requires forall id :: !ReadyAt(steps, order, id)
    ensures var g := GraphOf(ById(steps));
            && (|order| == |steps| <==> Closed(g) && Acyclic(g))
            && Greedy(g, order)
            && (|order| == |steps| ==> IsLinearExtension(g, order))
  {
    hide *;
    GreedilyReadyIsDistinct(steps, order);
    GreedilyReadyIsGreedy(steps, order);
    NothingAvailable(steps, order);
    GreedyCompletes(GraphOf(ById(steps)), order);
    GraphSize(steps);
  }

  lemma StepsAreDistinct(steps: seq<Step>)
    requires UniqueIds(steps)
    ensures Distinct(steps)
  {
    forall i, j | 0 <= i < j < |steps|
      ensures steps[i] != steps[j]
    {
      assert Ids(steps)[i] != Ids(steps)[j];
    }
  }

  lemma SamePermutation(steps: seq<Step>, ordered: seq<Step>)
    requires UniqueIds(steps) && UniqueIds(ordered) && |ordered| == |steps|
    requires forall k :: 0 <= k < |ordered| ==> ordered[k].id in ById(steps) && ordered[k] == ById(steps)[ordered[k].id]
    ensures multiset(ordered) == multiset(steps)
  {
    StepsAreDistinct(steps);
    StepsAreDistinct(ordered);
    DistinctSubsetIsPermutation(ordered, steps);
  }

  /** The result does not depend on the order in which the steps were authored. */
  lemma OrderIgnoresAuthoring(steps: seq<Step>, permuted: seq<Step>, a: seq<Step>, b: seq<Step>)
    requires UniqueIds(steps) && multiset(steps) == multiset(permuted)
    requires multiset(a) == multiset(steps) && multiset(b) == multiset(permuted)
    requires IsLinearExtension(GraphOf(ById(steps)), Ids(a)) && Greedy(GraphOf(ById(steps)), Ids(a))
    requires IsLinearExtension(GraphOf(ById(permuted)), Ids(b)) && Greedy(GraphOf(ById(permuted)), Ids(b))
    ensures a == b
  {
    ByIdIgnoresOrder(steps, permuted);
    GreedyIsUnique(GraphOf(ById(steps)), Ids(a), Ids(b));
    forall k | 0 <= k < |a|
      ensures a[k] == b[k]
    {
      assert a[k] in multiset(a) && b[k] in multiset(b);
      assert a[k] in multiset(steps) && b[k] in multiset(steps);
      StepById(steps, a[k]);
      StepById(steps, b[k]);
      assert Ids(a)[k] == Ids(b)[k];
    }
  }

  lemma StepById(steps: seq<Step>, s: Step)
    requires UniqueIds(steps) && s in steps
    ensures s.id in ById(steps) && ById(steps)[s.id] == s
  {
    var i :| 0 <= i < |steps| && steps[i] == s;
    ByIdUnique(steps, i);
  }

  lemma ByIdIgnoresOrder(steps: seq<Step>, permuted: seq<Step>)
    requires UniqueIds(steps) && multiset(steps) == multiset(permuted)
    ensures ById(steps) == ById(permuted)
  {
    var m, n := ById(steps), ById(permuted);
    forall id
      ensures id in m <==> id in n
      ensures id in m && id in n ==> m[id] == n[id]
    {
      if id in m {
        assert m[id] in multiset(permuted);
      }
      if id in n {
        assert n[id] in multiset(steps);
        StepById(steps, n[id]);
      }
    }
  }
}
