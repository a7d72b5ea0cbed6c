/** Building the engine's plan for controlled runs: the target, the clock, the order of the steps, their ancestors, and
    the shape. */
module ControlledPlan {
  import opened Ancestors
  import opened ControlledShape
  import opened Options
  import opened Scenario
  import opened StepGraph
  import opened Topological

  datatype Probe = Probe(enabled: bool, protocolVersion: string, commitMode: string, maxControlledInFlight: int,
                         logicalClock: bool, checkpoints: seq<string>)

  datatype Service = Service(name: string, probe: Probe)

  /** How the scenario asks to be controlled. */
  datatype Control = Control(mode: string, expectLate: bool)

  datatype Authored = Authored(steps: seq<Step>, events: map<string, Event>, observers: seq<string>, control: Option<Control>,
                               clockStart: string)

  datatype Outcome =
    | NotControlled
    | WrongServices
    | UnfitProbe
    | CheckpointMissing
    | NoClock
    | NoOrder
    | Misshapen(candidate: Compiled)
    | Taken(plan: Compiled)

  const PROTOCOL := "chronicle-probe/v1alpha1"

  predicate FitProbe(p: Probe)
  {
    p.enabled && p.protocolVersion == PROTOCOL && p.commitMode == "manual_sync" && p.maxControlledInFlight == 2 && p.logicalClock
  }

  function ModeOf(mode: string): Mode
  {
    if mode == "aggregate-version" then AggregateVersion
    else if mode == "cross-stream" then CrossStream
    else if mode == "event-time" then EventTime
    else Unsupported
  }

  lemma ModesDiffer()
    ensures forall mode :: ModeOf(mode).CrossStream? <==> mode == "cross-stream"
    ensures forall mode :: ModeOf(mode).EventTime? <==> mode == "event-time"
  {
    assert "aggregate-version"[0] == 'a' && "cross-stream"[0] == 'c' && "event-time"[0] == 'e';
  }

  ghost predicate Orderable(steps: seq<Step>)
  {
    UniqueIds(steps) && Closed(GraphOf(ById(steps))) && Acyclic(GraphOf(ById(steps)))
  }

  /** The first thing that the engine finds wrong before it looks at the shape. */
  ghost function Obstacle(s: Authored, services: seq<Service>, parse: string -> Option<int>): Option<Outcome>
  {
    if s.control.None? then Some(NotControlled)
    else if |services| != 1 || services[0].name != SERVICE then Some(WrongServices)
    else if !FitProbe(services[0].probe) then Some(UnfitProbe)
    else if CHECKPOINT !in services[0].probe.checkpoints then Some(CheckpointMissing)
    else if parse(s.clockStart).None? then Some(NoClock)
    else if !Orderable(s.steps) then Some(NoOrder)
    else None
  }

  /** The authored steps in the order in which the engine runs them, with their ancestors. */
  ghost predicate PlanOf(s: Authored, parse: string -> Option<int>, c: Compiled)
  {
    && s.control.Some? && parse(s.clockStart).Some?
    && c.events == s.events && c.observers == s.observers && c.clockStart == parse(s.clockStart).value
    && c.mode == ModeOf(s.control.value.mode) && c.expectLate == s.control.value.expectLate
    && multiset(c.ordered) == multiset(s.steps) && ById(c.ordered) == ById(s.steps)
    && Ordered(c) && Greedy(Steps(c), Ids(c.ordered))
  }

  lemma SameStepsAreUnique(steps: seq<Step>, ordered: seq<Step>)
    requires UniqueIds(steps) && multiset(ordered) == multiset(steps)
    ensures UniqueIds(ordered) && ById(ordered) == ById(steps)
  {
    ByIdIgnoresOrder(steps, ordered);
    assert |ordered| == |multiset(ordered)| == |steps|;
    IdsCount(steps);
    IdsCount(ordered);
  }

  /** A plan is taken exactly when nothing stands in its way and it is well shaped; a taken plan has its steps in the order
      of the graph and their strict ancestors, which is what the orders of its runs rest on. */
  method BuildControlledPlan(s: Authored, services: seq<Service>, parse: string -> Option<int>) returns (outcome: Outcome)
    ensures Obstacle(s, services, parse).Some? ==> outcome == Obstacle(s, services, parse).value
    ensures Obstacle(s, services, parse).None? ==> outcome.Taken? || outcome.Misshapen?
    ensures outcome.Taken? ==> PlanOf(s, parse, outcome.plan) && WellShaped(outcome.plan)
    ensures outcome.Misshapen? ==> PlanOf(s, parse, outcome.candidate) && !WellShaped(outcome.candidate)
    ensures outcome.NotControlled? <==> s.control.None?
    ensures outcome.WrongServices? <==> s.control.Some? && !(|services| == 1 && services[0].name == "order-workflow")
    ensures outcome.UnfitProbe? <==>
              && s.control.Some? && |services| == 1 && services[0].name == "order-workflow"
              && (var p := services[0].probe;
                  !p.enabled || p.protocolVersion != "chronicle-probe/v1alpha1" || p.commitMode != "manual_sync"
                  || p.maxControlledInFlight != 2 || !p.logicalClock)
    ensures outcome.Taken? || outcome.Misshapen? || outcome.NoClock? || outcome.NoOrder? ==>
              "before_handler" in services[0].probe.checkpoints
    ensures outcome.CheckpointMissing? ==> "before_handler" !in services[0].probe.checkpoints
    ensures outcome.NoClock? ==> parse(s.clockStart).None?
    ensures outcome.NoOrder? ==> parse(s.clockStart).Some?
    ensures outcome.Taken? ==>
              var mode := s.control.value.mode;
              && (outcome.plan.mode.AggregateVersion? <==> mode == "aggregate-version")
              && (outcome.plan.mode.CrossStream? <==> mode == "cross-stream")
              && (outcome.plan.mode.EventTime? <==> mode == "event-time")
  {
    ModesDiffer();
    hide WellShaped, Greedy, Closed, Acyclic, UniqueIds, IsLinearExtension, ById, GraphOf, IsAncestorSet;
    if s.control.None? {
      return NotControlled;
    }
    if |services| != 1 || services[0].name != SERVICE {
      return WrongServices;
    }
    var probe := services[0].probe;
    if !FitProbe(probe) {
      return UnfitProbe;
    }
    var foundBeforeHandler := false;
    for i := 0 to |probe.checkpoints|
      invariant foundBeforeHandler <==> CHECKPOINT in probe.checkpoints[..i]
    {
      if probe.checkpoints[i] == CHECKPOINT {
        foundBeforeHandler := true;
      }
    }
    assert probe.checkpoints[..|probe.checkpoints|] == probe.checkpoints;
    if !foundBeforeHandler {
      return CheckpointMissing;
    }
    var clockStart := parse(s.clockStart);
    if clockStart.None? {
      return NoClock;
    }
    var ok, ordered := TopologicalSteps(s.steps);
    if !ok {
      return NoOrder;
    }
    SameStepsAreUnique(s.steps, ordered);
    var ancestors := EngineAncestors(s.steps);
    var control := s.control.value;
    var c := Compiled(ordered, ancestors, s.events, ModeOf(control.mode), control.expectLate, clockStart.value, s.observers);
    var taken := CompileControlled(c);
    outcome := if taken then Taken(c) else Misshapen(c);
  }

  /** Which plan that is does not depend on the order in which the steps were authored. */
  lemma PlanIgnoresAuthoring(s: Authored, t: Authored, parse: string -> Option<int>, c: Compiled, d: Compiled)
    requires PlanOf(s, parse, c) && PlanOf(t, parse, d) && t == s.(steps := t.steps) && multiset(t.steps) == multiset(s.steps)
    ensures c.ordered == d.ordered
    ensures forall a, id :: id in ById(c.ordered) ==> (IsAncestor(c, a, id) <==> IsAncestor(d, a, id))
  {
    hide Greedy, IsLinearExtension, ById, UniqueIds;
    OrderIgnoresAuthoring(c.ordered, d.ordered, c.ordered, d.ordered);
  }
}
