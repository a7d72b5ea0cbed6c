/** The engine's plan for rewind runs, which it reads off the authored steps without their dependencies. */
module VerticalPlan {
  import opened Options
  import opened Scenario

  /** A declared observation and whether it is an SQL query. */
  datatype Declaration = Declaration(id: string, sql: bool)

  datatype Authored = Authored(steps: seq<Step>, events: map<string, Event>, observations: seq<Declaration>,
                               invariants: seq<string>, services: seq<string>)

  datatype Publication = Publication(stepId: string, action: Action, event: Event)

  /** The publications in authored order, and the one whose record is delivered again. */
  datatype Plan = Plan(service: string, publishes: seq<Publication>, primary: Publication, rewind: Action,
                       observation: string, invariantId: string)

  datatype Refusal =
    | ServiceCount
    | SecondRewind
    | ActionMissing
    | EventUndeclared
    | KeyMismatch
    | PrimaryCount
    | QueryMissing
    | InvariantCount
    | OtherService

  datatype Outcome = Taken(plan: Plan) | Refused(reason: Refusal)

  /* ---------- what a plan consists of ---------- */

  function Rewinds(steps: seq<Step>): (actions: seq<Action>)
    ensures forall i :: 0 <= i < |actions| ==> actions[i].RewindOffset?
  {
    if steps == [] then []
    else
      var last := steps[|steps| - 1];
      Rewinds(steps[..|steps| - 1]) + (if last.action.RewindOffset? then [last.action] else [])
  }

  /** The observation of the last observing step; the empty name when there is none. */
  function Observed(steps: seq<Step>): string
  {
    if steps == [] then ""
    else
      var last := steps[|steps| - 1];
      if last.action.Observe? then last.action.observation else Observed(steps[..|steps| - 1])
  }

  /** A rewind with a topic is the last one; rewinds without one before it are overwritten. */
  predicate OneRewind(rewinds: seq<Action>)
    requires forall i :: 0 <= i < |rewinds| ==> rewinds[i].RewindOffset?
  {
    forall i :: 0 <= i < |rewinds| - 1 ==> rewinds[i].topic == ""
  }

  predicate Declared(events: map<string, Event>, s: Step)
    requires s.action.Publish?
  {
    s.action.event in events
  }

  predicate Keyed(events: map<string, Event>, s: Step)
    requires s.action.Publish?
  {
    Declared(events, s) && s.action.key != "" && s.action.key == events[s.action.event].aggregateId
  }

  /** The publication is to the topic and partition of the rewind. */
  predicate Targets(publish: Action, rewind: Action)
    requires publish.Publish? && rewind.RewindOffset?
  {
    publish.topic == rewind.topic && publish.partition == rewind.partition
  }

  function Primaries(publishes: seq<Step>, rewind: Action): (s: seq<Step>)
    requires forall i :: 0 <= i < |publishes| ==> publishes[i].action.Publish?
    requires rewind.RewindOffset?
    ensures forall i :: 0 <= i < |s| ==> s[i].action.Publish? && s[i] in publishes && Targets(s[i].action, rewind)
  {
    if publishes == [] then []
    else
      var last := publishes[|publishes| - 1];
      Primaries(publishes[..|publishes| - 1], rewind) + (if Targets(last.action, rewind) then [last] else [])
  }

  /** The last declaration with the name, if there is one, is an SQL query. */
  predicate Queried(observations: seq<Declaration>, id: string)
  {
    observations != [] &&
    var last := observations[|observations| - 1];
    if last.id == id then last.sql else Queried(observations[..|observations| - 1], id)
  }

  predicate Complete(a: Authored)
  {
    var rewinds := Rewinds(a.steps);
    && Publications(a.steps) != [] && Observed(a.steps) != ""
    && rewinds != [] && rewinds[|rewinds| - 1].topic != ""
  }

  /** The rewind that the plan carries. */
  function TheRewind(a: Authored): (rewind: Action)
    requires Complete(a)
    ensures rewind.RewindOffset? && rewind.topic != ""
  {
    var rewinds := Rewinds(a.steps);
    rewinds[|rewinds| - 1]
  }

  predicate AllKeyed(a: Authored)
  {
    var publishes := Publications(a.steps);
    forall i :: 0 <= i < |publishes| ==> Keyed(a.events, publishes[i])
  }

  /** What the engine takes; no dependency matters. */
  predicate Accepts(a: Authored)
  {
    && |a.services| == 1
    && OneRewind(Rewinds(a.steps)) && Complete(a)
    && AllKeyed(a)
    && |Primaries(Publications(a.steps), TheRewind(a))| == 1
    && Queried(a.observations, Observed(a.steps))
    && |a.invariants| == 1
    && TheRewind(a).service == a.services[0]
  }

  function PublicationOf(a: Authored, s: Step): Publication
    requires s.action.Publish? && Keyed(a.events, s)
  {
    Publication(s.id, s.action, a.events[s.action.event])
  }

  /** The plan is that of the authored scenario. */
  ghost predicate PlanOf(a: Authored, plan: Plan)
    requires Accepts(a)
  {
    var publishes := Publications(a.steps);
    && plan.service == a.services[0] && plan.rewind == TheRewind(a)
    && |plan.publishes| == |publishes|
    && (forall i :: 0 <= i < |publishes| ==> plan.publishes[i] == PublicationOf(a, publishes[i]))
    && plan.primary == PublicationOf(a, Primaries(publishes, TheRewind(a))[0])
    && plan.observation == Observed(a.steps) && plan.invariantId == a.invariants[0]
  }

  lemma PrimariesNext(publishes: seq<Step>, i: nat, rewind: Action)
    requires forall i :: 0 <= i < |publishes| ==> publishes[i].action.Publish?
    requires rewind.RewindOffset? && i < |publishes|
    ensures Primaries(publishes[..i + 1], rewind) ==
            Primaries(publishes[..i], rewind) + (if Targets(publishes[i].action, rewind) then [publishes[i]] else [])
  {
    assert publishes[..i + 1][..i] == publishes[..i];
  }

  /** The publication to the rewind's topic and partition is among the plan's, once. */
  lemma {:induction false} PrimaryIsUnique(publishes: seq<Step>, rewind: Action) returns (k: nat)
    requires forall i :: 0 <= i < |publishes| ==> publishes[i].action.Publish?
    requires rewind.RewindOffset? && |Primaries(publishes, rewind)| == 1
    ensures k < |publishes| && publishes[k] == Primaries(publishes, rewind)[0]
    ensures forall i :: 0 <= i < |publishes| ==> (Targets(publishes[i].action, rewind) <==> i == k)
  {
    hide Targets;
    assert publishes != [];
    var last := |publishes| - 1;
    var init := publishes[..last];
    PrimariesNext(publishes, last, rewind);
    assert publishes[..last + 1] == publishes;
    hide Primaries;
    if Targets(publishes[last].action, rewind) {
      k := last;
      NoPrimary(init, rewind);
      assert forall i :: 0 <= i < last ==> publishes[i] == init[i];
    } else {
      k := PrimaryIsUnique(init, rewind);
      assert forall i :: 0 <= i < last ==> publishes[i] == init[i];
    }
  }

  lemma {:induction false} NoPrimary(publishes: seq<Step>, rewind: Action)
    requires forall i :: 0 <= i < |publishes| ==> publishes[i].action.Publish?
    requires rewind.RewindOffset? && Primaries(publishes, rewind) == []
    ensures forall i :: 0 <= i < |publishes| ==> !Targets(publishes[i].action, rewind)
  {
    hide Targets;
    if publishes != [] {
      NoPrimary(publishes[..|publishes| - 1], rewind);
    }
  }

  /* ---------- reading the steps ---------- */

  method ReadSteps(steps: seq<Step>) returns (ok: bool, publishes: seq<Step>, rewind: Option<Action>, observation: string)
    ensures ok <==> OneRewind(Rewinds(steps))
    ensures ok ==> publishes == Publications(steps) && observation == Observed(steps)
    ensures ok ==> (rewind.Some? <==> Rewinds(steps) != [])
    ensures ok && rewind.Some? ==> rewind.value == Rewinds(steps)[|Rewinds(steps)| - 1]
  {
    publishes, rewind, observation := [], None, "";
    for i := 0 to |steps|
      invariant OneRewind(Rewinds(steps[..i]))
      invariant publishes == Publications(steps[..i]) && observation == Observed(steps[..i])
      invariant rewind.Some? <==> Rewinds(steps[..i]) != []
      invariant rewind.Some? ==> rewind.value == Rewinds(steps[..i])[|Rewinds(steps[..i])| - 1]
    {
      assert steps[..i + 1][..i] == steps[..i];
      match steps[i].action
      case Publish(_, _, _, _) => publishes := publishes + [steps[i]];
      case RewindOffset(_, _, _, _, _) =>
        if rewind.Some? && rewind.value.topic != "" {
          TwoRewinds(steps, i);
          ok := false;
          return;
        }
        rewind := Some(steps[i].action);
      case Observe(name) => observation := name;
      case _ =>
    }
    assert steps[..|steps|] == steps;
    ok := true;
  }

  lemma {:induction false} RewindsGrow(steps: seq<Step>, i: nat)
    requires i <= |steps|
    ensures Rewinds(steps[..i]) <= Rewinds(steps)
    decreases |steps|
  {
    if i < |steps| {
      var init := steps[..|steps| - 1];
      assert init[..i] == steps[..i];
      RewindsGrow(init, i);
    } else {
      assert steps[..i] == steps;
    }
  }

  lemma TwoRewinds(steps: seq<Step>, i: nat)
    requires i < |steps| && steps[i].action.RewindOffset? && Rewinds(steps[..i]) != []
    requires Rewinds(steps[..i])[|Rewinds(steps[..i])| - 1].topic != ""
    ensures !OneRewind(Rewinds(steps))
  {
    assert steps[..i + 1][..i] == steps[..i];
    RewindsGrow(steps, i + 1);
    var k := |Rewinds(steps[..i])| - 1;
    assert Rewinds(steps)[k] == Rewinds(steps[..i + 1])[k] == Rewinds(steps[..i])[k];
  }

  /** The first publication that is undeclared or has another key than its aggregate. */
  function KeyFault(events: map<string, Event>, publishes: seq<Step>): (fault: Option<Refusal>)
    requires forall i :: 0 <= i < |publishes| ==> publishes[i].action.Publish?
    ensures fault.None? <==> forall i :: 0 <= i < |publishes| ==> Keyed(events, publishes[i])
    ensures fault.None? || fault == Some(EventUndeclared) || fault == Some(KeyMismatch)
  {
    if publishes == [] then None
    else
      var init, last := publishes[..|publishes| - 1], publishes[|publishes| - 1];
      if KeyFault(events, init).Some? then KeyFault(events, init)
      else if !Declared(events, last) then Some(EventUndeclared)
      else if !Keyed(events, last) then Some(KeyMismatch)
      else None
  }

  /** The first guard that refuses the scenario, in the order in which they are looked at. */
  function Fault(a: Authored): (fault: Option<Refusal>)
    ensures fault.None? <==> Accepts(a)
  {
    if |a.services| != 1 then Some(ServiceCount)
    else if !OneRewind(Rewinds(a.steps)) then Some(SecondRewind)
    else if !Complete(a) then Some(ActionMissing)
    else if KeyFault(a.events, Publications(a.steps)).Some? then KeyFault(a.events, Publications(a.steps))
    else if |Primaries(Publications(a.steps), TheRewind(a))| != 1 then Some(PrimaryCount)
    else if !Queried(a.observations, Observed(a.steps)) then Some(QueryMissing)
    else if |a.invariants| != 1 then Some(InvariantCount)
    else if TheRewind(a).service != a.services[0] then Some(OtherService)
    else None
  }

  lemma KeyFaultNext(events: map<string, Event>, publishes: seq<Step>, i: nat)
    requires forall i :: 0 <= i < |publishes| ==> publishes[i].action.Publish?
    requires i < |publishes| && KeyFault(events, publishes[..i]).None?
    ensures KeyFault(events, publishes[..i + 1]) ==
            if !Declared(events, publishes[i]) then Some(EventUndeclared)
            else if !Keyed(events, publishes[i]) then Some(KeyMismatch)
            else None
  {
    assert publishes[..i + 1][..i] == publishes[..i];
  }

  lemma NothingRead(events: map<string, Event>, publishes: seq<Step>, rewind: Action)
    requires forall i :: 0 <= i < |publishes| ==> publishes[i].action.Publish?
    requires rewind.RewindOffset?
    ensures KeyFault(events, publishes[..0]).None? && Primaries(publishes[..0], rewind) == []
  {}

  method KeyPublications(a: Authored, steps: seq<Step>, rewind: Action)
    returns (fault: Option<Refusal>, publishes: seq<Publication>, primary: Option<Publication>, primaryCount: nat)
    requires forall i :: 0 <= i < |steps| ==> steps[i].action.Publish?
    requires rewind.RewindOffset?
    ensures fault == KeyFault(a.events, steps)
    ensures fault.None? ==> |publishes| == |steps| && primaryCount == |Primaries(steps, rewind)|
    ensures fault.None? ==> forall i :: 0 <= i < |steps| ==> publishes[i] == PublicationOf(a, steps[i])
    ensures fault.None? && primaryCount > 0 ==> primary == Some(PublicationOf(a, Primaries(steps, rewind)[primaryCount - 1]))
  {
    hide KeyFault, Primaries;
    publishes, primary, primaryCount := [], None, 0;
    NothingRead(a.events, steps, rewind);
    for i := 0 to |steps|
      invariant KeyFault(a.events, steps[..i]) == None
      invariant |publishes| == i && forall j :: 0 <= j < i ==> publishes[j] == PublicationOf(a, steps[j])
      invariant primaryCount == |Primaries(steps[..i], rewind)|
      invariant primaryCount > 0 ==> primary == Some(PublicationOf(a, Primaries(steps[..i], rewind)[primaryCount - 1]))
    {
      KeyFaultNext(a.events, steps, i);
      PrimariesNext(steps, i, rewind);
      var s := steps[i];
      if s.action.event !in a.events {
        FaultStays(a.events, steps, i + 1);
        fault := Some(EventUndeclared);
        return;
      }
      var event := a.events[s.action.event];
      if s.action.key == "" || s.action.key != event.aggregateId {
        FaultStays(a.events, steps, i + 1);
        fault := Some(KeyMismatch);
        return;
      }
      publishes := publishes + [Publication(s.id, s.action, event)];
      if s.action.topic == rewind.topic && s.action.partition == rewind.partition {
        primary, primaryCount := Some(Publication(s.id, s.action, event)), primaryCount + 1;
      }
    }
    assert steps[..|steps|] == steps;
    fault := None;
  }

  lemma {:induction false} FaultStays(events: map<string, Event>, publishes: seq<Step>, n: nat)
    requires forall i :: 0 <= i < |publishes| ==> publishes[i].action.Publish?
    requires n <= |publishes| && KeyFault(events, publishes[..n]).Some?
    ensures KeyFault(events, publishes) == KeyFault(events, publishes[..n])
    decreases |publishes|
  {
    if n == |publishes| {
      assert publishes[..n] == publishes;
    } else {
      var init := publishes[..|publishes| - 1];
      assert init[..n] == publishes[..n];
      FaultStays(events, init, n);
    }
  }

  method FindQuery(observations: seq<Declaration>, id: string) returns (sql: bool)
    ensures sql <==> Queried(observations, id)
  {
    sql := false;
    for i := 0 to |observations|
      invariant sql <==> Queried(observations[..i], id)
    {
      assert observations[..i + 1][..i] == observations[..i];
      if observations[i].id == id {
        sql := observations[i].sql;
      }
    }
    assert observations[..|observations|] == observations;
  }

  /** Takes exactly the scenarios that meet every guard, refuses the others by the first that fails, and reads the
      plan off the steps in authored order. */
  method BuildVerticalPlan(a: Authored) returns (r: Outcome)
    ensures r.Taken? <==> Accepts(a)
    ensures r.Taken? ==> PlanOf(a, r.plan)
    ensures r.Refused? ==> Fault(a) == Some(r.reason)
  {
    hide Publications, Rewinds, Observed, Queried, OneRewind, KeyFault, Primaries;
    if |a.services| != 1 {
      return Refused(ServiceCount);
    }
    var ok, steps, rewind, observation := ReadSteps(a.steps);
    if !ok {
      return Refused(SecondRewind);
    }
    if |steps| == 0 || rewind.None? || rewind.value.topic == "" || observation == "" {
      return Refused(ActionMissing);
    }
    var fault, publishes, primary, primaryCount := KeyPublications(a, steps, rewind.value);
    if fault.Some? {
      return Refused(fault.value);
    }
    if primaryCount != 1 {
      return Refused(PrimaryCount);
    }
    var sql := FindQuery(a.observations, observation);
    if !sql {
      return Refused(QueryMissing);
    }
    if |a.invariants| != 1 {
      return Refused(InvariantCount);
    }
    if rewind.value.service != a.services[0] {
      return Refused(OtherService);
    }
    r := Taken(Plan(a.services[0], publishes, primary.value, rewind.value, observation, a.invariants[0]));
  }

  /* ---------- what a taken plan is ---------- */

  lemma {:induction false} ObservedIsLast(steps: seq<Step>)
    ensures Observed(steps) == "" || exists i :: LastObserve(steps, i, Observed(steps))
  {
    if steps != [] {
      var last := |steps| - 1;
      ObservedIsLast(steps[..last]);
      if steps[last].action.Observe? {
        assert LastObserve(steps, last, Observed(steps));
      } else if Observed(steps) != "" {
        var i :| LastObserve(steps[..last], i, Observed(steps));
        assert LastObserve(steps, i, Observed(steps));
      }
    }
  }

  ghost predicate LastObserve(steps: seq<Step>, i: int, observation: string)
  {
    && 0 <= i < |steps| && steps[i].action == Observe(observation)
    && forall j :: i < j < |steps| ==> !steps[j].action.Observe?
  }

  lemma {:induction false} QueriedMeans(observations: seq<Declaration>, id: string)
    ensures Queried(observations, id) <==> exists i :: LastDeclared(observations, i, id)
  {
    if observations != [] {
      var last := |observations| - 1;
      QueriedMeans(observations[..last], id);
      if observations[last].id == id {
        assert observations[last].sql ==> LastDeclared(observations, last, id);
      } else {
        if i :| LastDeclared(observations[..last], i, id) { assert LastDeclared(observations, i, id); }
        if i :| LastDeclared(observations, i, id) { assert LastDeclared(observations[..last], i, id); }
      }
    }
  }

  /** The last declaration of the observation, which is a query. */
  ghost predicate LastDeclared(observations: seq<Declaration>, i: int, id: string)
  {
    && 0 <= i < |observations| && observations[i].id == id && observations[i].sql
    && forall j :: i < j < |observations| ==> observations[j].id != id
  }

  lemma {:induction false} RewindsMember(steps: seq<Step>, action: Action)
    ensures action in Rewinds(steps) <==> action.RewindOffset? && exists i :: 0 <= i < |steps| && steps[i].action == action
  {
    if steps != [] {
      var last := |steps| - 1;
      RewindsMember(steps[..last], action);
      assert forall i :: 0 <= i < last ==> steps[..last][i] == steps[i];
    }
  }

  /** The publishing steps by ascending position. */
  lemma {:induction false} PublicationPositions(steps: seq<Step>) returns (picks: seq<nat>)
    ensures |picks| == |Publications(steps)|
    ensures forall k :: 0 <= k < |picks| ==> picks[k] < |steps| && Publications(steps)[k] == steps[picks[k]]
    ensures forall j, k :: 0 <= j < k < |picks| ==> picks[j] < picks[k]
    ensures forall i :: 0 <= i < |steps| && steps[i].action.Publish? ==> i in picks
  {
    picks := [];
    if steps != [] {
      picks := PublicationPositions(steps[..|steps| - 1]);
      if steps[|steps| - 1].action.Publish? { picks := picks + [|steps| - 1]; }
    }
  }

  /** A publication of the plan: its step's id, action and declared event, sent under the event's aggregate id. */
  predicate Publishes(a: Authored, p: Publication, step: Step)
  {
    && p.stepId == step.id && p.action == step.action && step.action.Publish? && step.action.event in a.events
    && p.event == a.events[step.action.event] && step.action.key == p.event.aggregateId != ""
  }

  /** A taken plan has the one service and invariant, a rewind of that service, all publications in authored order, of which
      only the primary one is to the topic and partition of the rewind, and the last observation, declared as a query. */
  lemma TakenPlan(a: Authored, plan: Plan) returns (picks: seq<nat>, primary: nat)
    requires Accepts(a) && PlanOf(a, plan)
    ensures a.services == [plan.service] && a.invariants == [plan.invariantId]
    ensures plan.rewind.RewindOffset? && plan.rewind.service == plan.service && plan.rewind.topic != ""
    ensures exists i :: 0 <= i < |a.steps| && a.steps[i].action == plan.rewind
    ensures |picks| == |plan.publishes| && primary < |plan.publishes| && plan.publishes[primary] == plan.primary
    ensures forall j, k :: 0 <= j < k < |picks| ==> picks[j] < picks[k]
    ensures forall i :: 0 <= i < |a.steps| && a.steps[i].action.Publish? ==> i in picks
    ensures forall k :: 0 <= k < |picks| ==> picks[k] < |a.steps| && Publishes(a, plan.publishes[k], a.steps[picks[k]])
    ensures forall k :: 0 <= k < |picks| ==>
              (k == primary <==> plan.publishes[k].action.topic == plan.rewind.topic
                                 && plan.publishes[k].action.partition == plan.rewind.partition)
    ensures plan.observation != "" && exists i :: LastObserve(a.steps, i, plan.observation)
    ensures exists i :: LastDeclared(a.observations, i, plan.observation)
  {
    picks := PublicationPositions(a.steps);
    primary := PrimaryIsUnique(Publications(a.steps), TheRewind(a));
    hide Publications, Primaries, Rewinds, Observed, Queried;
    ObservedIsLast(a.steps);
    QueriedMeans(a.observations, Observed(a.steps));
    RewindsMember(a.steps, TheRewind(a));
  }

  /** Two rewinds, of which the earlier one has a topic. */
  ghost predicate RewindsTwice(steps: seq<Step>, i: int, j: int)
  {
    0 <= i < j < |steps| && steps[i].action.RewindOffset? && steps[i].action.topic != "" && steps[j].action.RewindOffset?
  }

  lemma {:induction false} SecondRewindExists(steps: seq<Step>)
    requires !OneRewind(Rewinds(steps))
    ensures exists i, j :: RewindsTwice(steps, i, j)
  {
    var last := |steps| - 1;
    var init, rewinds := steps[..last], Rewinds(steps[..last]);
    if OneRewind(rewinds) {
      assert steps[last].action.RewindOffset? && rewinds != [] && rewinds[|rewinds| - 1].topic != "";
      assert rewinds[|rewinds| - 1] in rewinds;
      RewindsMember(init, rewinds[|rewinds| - 1]);
      var i :| 0 <= i < |init| && init[i].action == rewinds[|rewinds| - 1];
      assert RewindsTwice(steps, i, last);
    } else {
      SecondRewindExists(init);
      var i, j :| RewindsTwice(init, i, j);
      assert RewindsTwice(steps, i, j);
    }
  }

  lemma {:induction false} ObservedMeans(steps: seq<Step>, i: int, observation: string)
    requires LastObserve(steps, i, observation)
    ensures Observed(steps) == observation
  {
    var last := |steps| - 1;
    if i < last {
      assert LastObserve(steps[..last], i, observation);
      ObservedMeans(steps[..last], i, observation);
    }
  }

  lemma {:induction false} LastRewindMeans(steps: seq<Step>, i: nat)
    requires i < |steps| && steps[i].action.RewindOffset? && forall j :: i < j < |steps| ==> !steps[j].action.RewindOffset?
    ensures Rewinds(steps) != [] && Rewinds(steps)[|Rewinds(steps)| - 1] == steps[i].action
  {
    if i < |steps| - 1 { LastRewindMeans(steps[..|steps| - 1], i); }
  }

  /** Some step publishes, the last observing step names an observation, and the last rewind a topic. */
  ghost predicate HasActions(steps: seq<Step>)
  {
    && (exists i :: 0 <= i < |steps| && steps[i].action.Publish?)
    && (exists i :: 0 <= i < |steps| && steps[i].action.Observe? && LastObserve(steps, i, steps[i].action.observation)
                    && steps[i].action.observation != "")
    && exists i :: LastRewind(steps, i) && steps[i].action.topic != ""
  }

  ghost predicate LastRewind(steps: seq<Step>, i: int)
  {
    0 <= i < |steps| && steps[i].action.RewindOffset? && forall j :: i < j < |steps| ==> !steps[j].action.RewindOffset?
  }

  lemma HasActionsMeans(a: Authored)
    ensures HasActions(a.steps) <==> Complete(a)
  {
    hide Publications, Rewinds, Observed;
    if HasActions(a.steps) {
      var i :| 0 <= i < |a.steps| && a.steps[i].action.Publish?;
      PublicationsMember(a.steps, a.steps[i]);
      var j :| 0 <= j < |a.steps| && a.steps[j].action.Observe? && LastObserve(a.steps, j, a.steps[j].action.observation)
               && a.steps[j].action.observation != "";
      ObservedMeans(a.steps, j, a.steps[j].action.observation);
      var k :| LastRewind(a.steps, k) && a.steps[k].action.topic != "";
      LastRewindMeans(a.steps, k);
    }
    if Complete(a) { CompleteHasActions(a); }
  }

  lemma CompleteHasActions(a: Authored)
    requires Complete(a)
    ensures HasActions(a.steps)
  {
    hide Publications, Rewinds, Observed;
    PublicationsMember(a.steps, Publications(a.steps)[0]);
    ObservedIsLast(a.steps);
    var j :| LastObserve(a.steps, j, Observed(a.steps));
    var k := LastRewindIs(a.steps);
    assert LastRewind(a.steps, k) && a.steps[k].action.topic != "";
  }

  ghost predicate PublishesWrongly(a: Authored, i: int)
  {
    && 0 <= i < |a.steps| && a.steps[i].action.Publish?
    && var publish := a.steps[i].action;
       publish.event !in a.events || publish.key == "" || publish.key != a.events[publish.event].aggregateId
  }

  lemma {:induction false} KeyFaultMeans(a: Authored, publishes: seq<Step>)
    requires forall i :: 0 <= i < |publishes| ==> publishes[i].action.Publish? && publishes[i] in a.steps
    requires KeyFault(a.events, publishes).Some?
    ensures exists i :: PublishesWrongly(a, i)
  {
    var last := |publishes| - 1;
    if KeyFault(a.events, publishes[..last]).Some? {
      KeyFaultMeans(a, publishes[..last]);
    } else {
      var i :| 0 <= i < |a.steps| && a.steps[i] == publishes[last];
      assert PublishesWrongly(a, i);
    }
  }

  /** A scenario without the actions is refused for that, unless for its services or a second rewind. */
  lemma MissingActionsRefuse(a: Authored)
    requires !HasActions(a.steps)
    ensures Fault(a) == Some(ServiceCount) || Fault(a) == Some(SecondRewind) || Fault(a) == Some(ActionMissing)
  {
    hide Publications, Rewinds, Observed, HasActions, OneRewind;
    HasActionsMeans(a);
  }

  /** Every refusal has its reason. */
  lemma RefusalMeans(a: Authored)
    ensures match Fault(a)
            case None => true
            case Some(ServiceCount) => |a.services| != 1
            case Some(SecondRewind) => exists i, j :: RewindsTwice(a.steps, i, j)
            case Some(ActionMissing) => !HasActions(a.steps)
            case Some(EventUndeclared) => exists i :: PublishesWrongly(a, i)
            case Some(KeyMismatch) => exists i :: PublishesWrongly(a, i)
            case Some(PrimaryCount) =>
              forall i, k :: LastRewind(a.steps, i) ==> !OnlyTarget(Publications(a.steps), k, a.steps[i].action)
            case Some(QueryMissing) =>
              forall i, j :: 0 <= i < |a.steps| && a.steps[i].action.Observe?
                             && LastObserve(a.steps, i, a.steps[i].action.observation) ==>
                               !LastDeclared(a.observations, j, a.steps[i].action.observation)
            case Some(InvariantCount) => |a.invariants| != 1
            case Some(OtherService) =>
              exists i :: LastRewind(a.steps, i) && [a.steps[i].action.service] != a.services
  {
    hide Publications, Primaries, Rewinds, Observed, Queried, KeyFault, OneRewind, Complete, HasActions;
    match Fault(a)
    case Some(SecondRewind) => SecondRewindExists(a.steps);
    case Some(ActionMissing) => HasActionsMeans(a);
    case Some(PrimaryCount) =>
      forall i, k | LastRewind(a.steps, i)
        ensures !OnlyTarget(Publications(a.steps), k, a.steps[i].action)
      {
        LastRewindMeans(a.steps, i);
        if OnlyTarget(Publications(a.steps), k, a.steps[i].action) { OneTarget(Publications(a.steps), k, a.steps[i].action); }
      }
    case Some(QueryMissing) =>
      forall i, j | 0 <= i < |a.steps| && a.steps[i].action.Observe? && LastObserve(a.steps, i, a.steps[i].action.observation)
        ensures !LastDeclared(a.observations, j, a.steps[i].action.observation)
      {
        ObservedMeans(a.steps, i, a.steps[i].action.observation);
        QueriedMeans(a.observations, Observed(a.steps));
      }
    case Some(OtherService) => LastRewindExists(a);
    case Some(EventUndeclared) => PublicationFault(a);
    case Some(KeyMismatch) => PublicationFault(a);
    case _ =>
  }

  lemma PublicationFault(a: Authored)
    requires KeyFault(a.events, Publications(a.steps)).Some?
    ensures exists i :: PublishesWrongly(a, i)
  {
    hide Publications, KeyFault;
    forall i | 0 <= i < |Publications(a.steps)|
      ensures Publications(a.steps)[i] in a.steps
    {
      PublicationsMember(a.steps, Publications(a.steps)[i]);
    }
    KeyFaultMeans(a, Publications(a.steps));
  }

  /** One publication, the k-th, is to the topic and partition of the rewind. */
  ghost predicate OnlyTarget(publishes: seq<Step>, k: int, rewind: Action)
  {
    && 0 <= k < |publishes| && rewind.RewindOffset?
    && forall i :: 0 <= i < |publishes| && publishes[i].action.Publish? ==>
         (i == k <==> publishes[i].action.topic == rewind.topic && publishes[i].action.partition == rewind.partition)
  }

  lemma {:induction false} OneTarget(publishes: seq<Step>, k: nat, rewind: Action)
    requires OnlyTarget(publishes, k, rewind) && forall i :: 0 <= i < |publishes| ==> publishes[i].action.Publish?
    ensures |Primaries(publishes, rewind)| == 1
  {
    var last := |publishes| - 1;
    if k < last {
      assert OnlyTarget(publishes[..last], k, rewind);
      OneTarget(publishes[..last], k, rewind);
    } else {
      NoTarget(publishes[..last], rewind);
    }
  }

  lemma {:induction false} NoTarget(publishes: seq<Step>, rewind: Action)
    requires rewind.RewindOffset? && forall i :: 0 <= i < |publishes| ==> publishes[i].action.Publish?
    requires forall i :: 0 <= i < |publishes| ==> !Targets(publishes[i].action, rewind)
    ensures Primaries(publishes, rewind) == []
  {
    if publishes != [] { NoTarget(publishes[..|publishes| - 1], rewind); }
  }

  lemma {:induction false} LastRewindIs(steps: seq<Step>) returns (i: nat)
    requires Rewinds(steps) != []
    ensures LastRewind(steps, i) && steps[i].action == Rewinds(steps)[|Rewinds(steps)| - 1]
  {
    var last := |steps| - 1;
    if steps[last].action.RewindOffset? { i := last; } else { i := LastRewindIs(steps[..last]); }
  }

  lemma LastRewindExists(a: Authored)
    requires Complete(a) && a.services != [] && TheRewind(a).service != a.services[0]
    ensures exists i :: LastRewind(a.steps, i) && [a.steps[i].action.service] != a.services
  {
    hide Publications, Rewinds, Observed;
    var i := LastRewindIs(a.steps);
    assert [a.steps[i].action.service][0] != a.services[0];
  }
}
