/** The validator's rules on fault steps, and the runs that they make safe. */
module FaultOrdering {
  import opened Ancestors
  import opened Cardinality
  import opened LinearExtensions
  import opened Scenario
  import opened StepGraph

  type Ancestry = map<string, set<string>>

  /** What a service declares of its probe. */
  datatype Probe = Probe(enabled: bool, checkpoints: seq<string>, commitMode: string, maxControlledInFlight: int)

  /** What the rules look at: the authored steps, the ancestor sets, the event id behind every event name, and the
      probe of every service. */
  datatype Plan = Plan(steps: seq<Step>, ancestors: Ancestry, events: map<string, string>, probes: map<string, Probe>)

  datatype Rule =
    | DuplicateArm
    | RewindBeforeStop
    | RewindWithoutRestart
    | ReleaseUnprepared
    | AlreadyArmed
    | AwaitMissing
    | PublishMisplaced
    | TerminalMissing
    | ProbeDisabled
    | CheckpointUndeclared
    | CommitImprecise

  datatype Violation = Violation(step: nat, rule: Rule)

  /* ---------- queries ---------- */

  function AncestorsOf(p: Plan, id: string): set<string>
  {
    if id in p.ancestors then p.ancestors[id] else {}
  }

  predicate HasAncestor(p: Plan, id: string, action: Action)
  {
    exists a :: a in AncestorsOf(p, id) && a in ById(p.steps) && ById(p.steps)[a].action == action
  }

  predicate HasDescendant(p: Plan, id: string, action: Action)
  {
    exists i :: 0 <= i < |p.steps| && id in AncestorsOf(p, p.steps[i].id) && p.steps[i].action == action
  }

  predicate AwaitsAfter(p: Plan, armId: string, selector: Selector, s: Step)
  {
    armId in AncestorsOf(p, s.id) && s.action == AwaitCheckpoint(selector)
  }

  /** The first authored await of the tuple that depends on the arm; the empty id when there is none. */
  function MatchingAwait(p: Plan, armId: string, selector: Selector, from: nat): (id: string)
    requires from <= |p.steps|
    ensures id != "" ==> exists i :: from <= i < |p.steps| && AwaitsAfter(p, armId, selector, p.steps[i]) && p.steps[i].id == id
    ensures id == "" ==> forall i :: from <= i < |p.steps| && AwaitsAfter(p, armId, selector, p.steps[i]) ==>
                                       exists j :: from <= j <= i && p.steps[j].id == ""
    decreases |p.steps| - from
  {
    if from == |p.steps| then ""
    else if AwaitsAfter(p, armId, selector, p.steps[from]) then p.steps[from].id
    else MatchingAwait(p, armId, selector, from + 1)
  }

  predicate PublishesBetween(p: Plan, armId: string, awaitId: string, selector: Selector, s: Step)
  {
    && s.id == selector.stepId && s.action.Publish?
    && armId in AncestorsOf(p, s.id) && s.id in AncestorsOf(p, awaitId)
    && s.action.event in p.events && p.events[s.action.event] == selector.eventId
  }

  predicate HasMatchingPublish(p: Plan, armId: string, awaitId: string, selector: Selector)
  {
    exists i :: 0 <= i < |p.steps| && PublishesBetween(p, armId, awaitId, selector, p.steps[i])
  }

  predicate HasTerminal(p: Plan, awaitId: string, selector: Selector)
  {
    HasDescendant(p, awaitId, ReleaseCheckpoint(selector)) || HasDescendant(p, awaitId, Stop(selector.service))
  }

  /** An undeclared service has no probe. */
  function ProbeOf(p: Plan, service: string): Probe
  {
    if service in p.probes then p.probes[service] else Probe(false, [], "", 0)
  }

  predicate NeedsManualCommit(name: string) { name == "before_offset_commit" || name == "after_offset_commit" }

  /* ---------- the rules ---------- */

  ghost predicate Breaks(p: Plan, i: nat, rule: Rule)
    requires i < |p.steps|
  {
    var s := p.steps[i];
    match rule
    case DuplicateArm => s.action.ArmCheckpoint? && exists j :: 0 <= j < i && p.steps[j].action == s.action
    case RewindBeforeStop => s.action.RewindOffset? && !HasAncestor(p, s.id, Stop(s.action.service))
    case RewindWithoutRestart => s.action.RewindOffset? && !HasDescendant(p, s.id, Restart(s.action.service))
    case ReleaseUnprepared =>
      && s.action.ReleaseCheckpoint?
      && !(HasAncestor(p, s.id, ArmCheckpoint(s.action.selector)) && HasAncestor(p, s.id, AwaitCheckpoint(s.action.selector)))
    case AlreadyArmed => s.action.ArmCheckpoint? && HasAncestor(p, s.id, s.action)
    case AwaitMissing => s.action.ArmCheckpoint? && AwaitOf(p, s) == ""
    case PublishMisplaced =>
      s.action.ArmCheckpoint? && AwaitOf(p, s) != "" && !HasMatchingPublish(p, s.id, AwaitOf(p, s), s.action.selector)
    case TerminalMissing => s.action.ArmCheckpoint? && AwaitOf(p, s) != "" && !HasTerminal(p, AwaitOf(p, s), s.action.selector)
    case ProbeDisabled => s.action.ArmCheckpoint? && !ProbeOf(p, s.action.selector.service).enabled
    case CheckpointUndeclared =>
      s.action.ArmCheckpoint? &&
      var probe := ProbeOf(p, s.action.selector.service);
      probe.enabled && s.action.selector.name !in probe.checkpoints
    case CommitImprecise =>
      s.action.ArmCheckpoint? &&
      var probe := ProbeOf(p, s.action.selector.service);
      probe.enabled && NeedsManualCommit(s.action.selector.name)
      && (probe.commitMode != "manual_sync" || probe.maxControlledInFlight != 1)
  }

  function AwaitOf(p: Plan, arm: Step): string
    requires arm.action.ArmCheckpoint?
  {
    MatchingAwait(p, arm.id, arm.action.selector, 0)
  }

  ghost predicate Accepted(p: Plan)
  {
    forall i, rule :: 0 <= i < |p.steps| ==> !Breaks(p, i, rule)
  }

  method DuplicateArms(p: Plan) returns (violations: seq<Violation>)
    ensures forall v :: v in violations <==> v.rule.DuplicateArm? && v.step < |p.steps| && Breaks(p, v.step, DuplicateArm)
  {
    violations := [];
    var arms: map<Selector, string> := map[];
    for i := 0 to |p.steps|
      invariant forall selector :: selector in arms <==> exists j :: 0 <= j < i && p.steps[j].action == ArmCheckpoint(selector)
      invariant forall v :: v in violations <==> v.rule.DuplicateArm? && v.step < i && Breaks(p, v.step, DuplicateArm)
    {
      var s := p.steps[i];
      if s.action.ArmCheckpoint? {
        if s.action.selector in arms {
          violations := violations + [Violation(i, DuplicateArm)];
        }
        arms := arms[s.action.selector := s.id];
      }
    }
  }

  predicate AboutProbe(rule: Rule) { rule.ProbeDisabled? || rule.CheckpointUndeclared? || rule.CommitImprecise? }

  method ValidateProbeDeclaration(p: Plan, i: nat) returns (violations: seq<Violation>)
    requires i < |p.steps| && p.steps[i].action.ArmCheckpoint?
    ensures forall v :: v in violations <==> AboutProbe(v.rule) && v.step == i && Breaks(p, i, v.rule)
  {
    hide ProbeOf, NeedsManualCommit, AwaitOf;
    var selector := p.steps[i].action.selector;
    var probe := ProbeOf(p, selector.service);
    violations := [];
    if !probe.enabled {
      return [Violation(i, ProbeDisabled)];
    }
    if selector.name !in probe.checkpoints {
      violations := violations + [Violation(i, CheckpointUndeclared)];
    }
    if NeedsManualCommit(selector.name) && (probe.commitMode != "manual_sync" || probe.maxControlledInFlight != 1) {
      violations := violations + [Violation(i, CommitImprecise)];
    }
  }

  method CheckStep(p: Plan, i: nat) returns (violations: seq<Violation>)
    requires i < |p.steps|
    ensures forall v :: v in violations <==> !v.rule.DuplicateArm? && v.step == i && Breaks(p, i, v.rule)
  {
    hide HasAncestor, HasDescendant, MatchingAwait, HasMatchingPublish, HasTerminal, ProbeOf, NeedsManualCommit;
    var s := p.steps[i];
    violations := [];
    match s.action
    case RewindOffset(service, _, _, _, _) =>
      if !HasAncestor(p, s.id, Stop(service)) {
        violations := violations + [Violation(i, RewindBeforeStop)];
      }
      if !HasDescendant(p, s.id, Restart(service)) {
        violations := violations + [Violation(i, RewindWithoutRestart)];
      }
    case ReleaseCheckpoint(selector) =>
      var armed, awaited := HasAncestor(p, s.id, ArmCheckpoint(selector)), HasAncestor(p, s.id, AwaitCheckpoint(selector));
      if !(armed && awaited) {
        violations := violations + [Violation(i, ReleaseUnprepared)];
      }
    case ArmCheckpoint(selector) =>
      if HasAncestor(p, s.id, ArmCheckpoint(selector)) {
        violations := violations + [Violation(i, AlreadyArmed)];
      }
      var awaitId := MatchingAwait(p, s.id, selector, 0);
      if awaitId == "" {
        violations := violations + [Violation(i, AwaitMissing)];
      } else {
        if !HasMatchingPublish(p, s.id, awaitId, selector) {
          violations := violations + [Violation(i, PublishMisplaced)];
        }
        if !HasTerminal(p, awaitId, selector) {
          violations := violations + [Violation(i, TerminalMissing)];
        }
      }
      var more := ValidateProbeDeclaration(p, i);
      violations := violations + more;
    case _ =>
  }

  method ValidateFaultOrdering(p: Plan) returns (violations: seq<Violation>)
    ensures forall v :: v in violations <==> v.step < |p.steps| && Breaks(p, v.step, v.rule)
    ensures violations == [] <==> Accepted(p)
  {
    hide Breaks;
    violations := DuplicateArms(p);
    for i := 0 to |p.steps|
      invariant forall v :: v in violations <==>
                  && v.step < |p.steps| && (v.rule.DuplicateArm? || v.step < i)
                  && Breaks(p, v.step, v.rule)
    {
      var more := CheckStep(p, i);
      violations := violations + more;
    }
    if violations != [] {
      assert violations[0] in violations;
    }
    assert forall i, rule :: 0 <= i < |p.steps| && Breaks(p, i, rule) ==> Violation(i, rule) in violations;
  }

  /** The probe of the service behind an arm must be declared and enabled, declare the checkpoint, and for the two
      checkpoints around an offset commit commit by hand, one record at a time. */
  lemma ProbeRulesAreExact(p: Plan, i: nat)
    requires i < |p.steps| && p.steps[i].action.ArmCheckpoint?
    ensures var x := p.steps[i].action.selector;
            var enabled := x.service in p.probes && p.probes[x.service].enabled;
            && (Breaks(p, i, ProbeDisabled) <==> !enabled)
            && (Breaks(p, i, CheckpointUndeclared) <==> enabled && x.name !in p.probes[x.service].checkpoints)
            && (Breaks(p, i, CommitImprecise) <==>
                  && enabled && (x.name == "before_offset_commit" || x.name == "after_offset_commit")
                  && (p.probes[x.service].commitMode != "manual_sync" || p.probes[x.service].maxControlledInFlight != 1))
  {}

  /** An arm without an await is reported for that alone, not for its publication or its end. */
  lemma UnawaitedArm(p: Plan, i: nat)
    requires i < |p.steps| && p.steps[i].action.ArmCheckpoint? && Breaks(p, i, AwaitMissing)
    ensures !Breaks(p, i, PublishMisplaced) && !Breaks(p, i, TerminalMissing)
  {}

  /* ---------- what the rules decide ---------- */

  ghost function StepGraphOf(p: Plan): Graph { KnownGraph(ById(p.steps)) }

  /** Unique, nonempty step ids and the strict ancestor set of every step. */
  ghost predicate Prepared(p: Plan)
  {
    && UniqueIds(p.steps)
    && "" !in ById(p.steps)
    && forall id :: id in ById(p.steps) ==> id in p.ancestors && IsAncestorSet(StepGraphOf(p), id, p.ancestors[id])
  }

  ghost function ActionIds(p: Plan, action: Action): (ids: set<string>)
    ensures forall id :: id in ids <==> id in ById(p.steps) && ById(p.steps)[id].action == action
  {
    set id | id in ById(p.steps) && ById(p.steps)[id].action == action
  }

  lemma StepIsById(p: Plan, i: nat)
    requires Prepared(p) && i < |p.steps|
    ensures p.steps[i].id in ById(p.steps) && ById(p.steps)[p.steps[i].id] == p.steps[i]
  {
    ByIdUnique(p.steps, i);
  }

  lemma HasAncestorMeans(p: Plan, id: string, action: Action)
    requires Prepared(p) && id in ById(p.steps)
    ensures HasAncestor(p, id, action) <==> exists a :: a in ActionIds(p, action) && Ancestor(StepGraphOf(p), a, id)
  {
    hide Ancestor, ById, ActionIds;
    if a :| a in ActionIds(p, action) && Ancestor(StepGraphOf(p), a, id) {
      assert a in AncestorsOf(p, id);
    }
    if HasAncestor(p, id, action) {
      var a :| a in AncestorsOf(p, id) && a in ById(p.steps) && ById(p.steps)[a].action == action;
      assert a in ActionIds(p, action);
    }
  }

  lemma HasDescendantMeans(p: Plan, id: string, action: Action)
    requires Prepared(p) && id in ById(p.steps)
    ensures HasDescendant(p, id, action) <==> exists b :: b in ActionIds(p, action) && Ancestor(StepGraphOf(p), id, b)
  {
    hide Ancestor, ActionIds, ById, KnownGraph;
    if b :| b in ActionIds(p, action) && Ancestor(StepGraphOf(p), id, b) {
      var i :| 0 <= i < |p.steps| && p.steps[i] == ById(p.steps)[b];
      assert id in AncestorsOf(p, p.steps[i].id);
    }
    if HasDescendant(p, id, action) {
      var i :| 0 <= i < |p.steps| && id in AncestorsOf(p, p.steps[i].id) && p.steps[i].action == action;
      StepIsById(p, i);
      assert p.steps[i].id in ActionIds(p, action);
    }
  }

  lemma AwaitMissingMeans(p: Plan, arm: Step)
    requires Prepared(p) && arm.action.ArmCheckpoint? && arm.id in ById(p.steps)
    ensures AwaitOf(p, arm) != "" <==> HasDescendant(p, arm.id, AwaitCheckpoint(arm.action.selector))
  {
    hide ById;
    var selector := arm.action.selector;
    forall i | 0 <= i < |p.steps|
      ensures p.steps[i].id != ""
    {
      StepIsById(p, i);
    }
    if HasDescendant(p, arm.id, AwaitCheckpoint(selector)) {
      var i :| 0 <= i < |p.steps| && arm.id in AncestorsOf(p, p.steps[i].id) && p.steps[i].action == AwaitCheckpoint(selector);
      assert AwaitsAfter(p, arm.id, selector, p.steps[i]);
    }
  }

  /** Every linear extension has a step of the action before the given one. */
  ghost predicate AlwaysPreceded(p: Plan, action: Action, id: string)
  {
    forall o :: IsLinearExtension(StepGraphOf(p), o) ==> SomeBefore(o, ActionIds(p, action), id)
  }

  ghost predicate AlwaysFollowed(p: Plan, id: string, action: Action)
  {
    forall o :: IsLinearExtension(StepGraphOf(p), o) ==> SomeAfter(o, id, ActionIds(p, action))
  }

  lemma HasAncestorIsAlwaysPreceded(p: Plan, order: seq<string>, id: string, action: Action)
    requires Prepared(p) && IsLinearExtension(StepGraphOf(p), order) && id in ById(p.steps)
    ensures HasAncestor(p, id, action) <==> AlwaysPreceded(p, action, id)
  {
    hide IsLinearExtension, HasAncestor, SomeBefore, Ancestor, Prepared, ById;
    HasAncestorMeans(p, id, action);
    SomeBeforeIsSomeAncestor(StepGraphOf(p), order, ActionIds(p, action), id);
  }

  lemma HasDescendantIsAlwaysFollowed(p: Plan, order: seq<string>, id: string, action: Action)
    requires Prepared(p) && IsLinearExtension(StepGraphOf(p), order) && id in ById(p.steps)
    ensures HasDescendant(p, id, action) <==> AlwaysFollowed(p, id, action)
  {
    hide IsLinearExtension, HasDescendant, SomeAfter, Ancestor, Prepared, ById;
    HasDescendantMeans(p, id, action);
    SomeAfterIsSomeDescendant(StepGraphOf(p), order, id, ActionIds(p, action));
  }

  /** The order rules are exact: each is reported for a step exactly when some run, a linear extension of the
      step graph, breaks it there. */
  lemma RulesAreExact(p: Plan, order: seq<string>, i: nat)
    requires Prepared(p) && IsLinearExtension(StepGraphOf(p), order) && i < |p.steps|
    ensures var s := p.steps[i];
            match s.action
            case RewindOffset(service, _, _, _, _) =>
              && (Breaks(p, i, RewindBeforeStop) <==> !AlwaysPreceded(p, Stop(service), s.id))
              && (Breaks(p, i, RewindWithoutRestart) <==> !AlwaysFollowed(p, s.id, Restart(service)))
            case ReleaseCheckpoint(selector) =>
              Breaks(p, i, ReleaseUnprepared) <==>
                !(AlwaysPreceded(p, ArmCheckpoint(selector), s.id) && AlwaysPreceded(p, AwaitCheckpoint(selector), s.id))
            case ArmCheckpoint(selector) =>
              && (Breaks(p, i, AlreadyArmed) <==> AlwaysPreceded(p, ArmCheckpoint(selector), s.id))
              && (Breaks(p, i, AwaitMissing) <==> !AlwaysFollowed(p, s.id, AwaitCheckpoint(selector)))
            case _ => true
  {
    hide AlwaysPreceded, AlwaysFollowed, HasAncestor, HasDescendant, IsLinearExtension, AwaitOf, Prepared, ById;
    StepIsById(p, i);
    var s := p.steps[i];
    match s.action
    case RewindOffset(service, _, _, _, _) =>
      HasAncestorIsAlwaysPreceded(p, order, s.id, Stop(service));
      HasDescendantIsAlwaysFollowed(p, order, s.id, Restart(service));
    case ReleaseCheckpoint(selector) =>
      HasAncestorIsAlwaysPreceded(p, order, s.id, ArmCheckpoint(selector));
      HasAncestorIsAlwaysPreceded(p, order, s.id, AwaitCheckpoint(selector));
    case ArmCheckpoint(selector) =>
      HasAncestorIsAlwaysPreceded(p, order, s.id, ArmCheckpoint(selector));
      HasDescendantIsAlwaysFollowed(p, order, s.id, AwaitCheckpoint(selector));
      AwaitMissingMeans(p, s);
    case _ =>
  }

  /** Every run releases the tuple or stops its service after the await. */
  ghost predicate AlwaysEnded(p: Plan, awaitId: string, selector: Selector)
  {
    var ends := ActionIds(p, ReleaseCheckpoint(selector)) + ActionIds(p, Stop(selector.service));
    forall o :: IsLinearExtension(StepGraphOf(p), o) ==> SomeAfter(o, awaitId, ends)
  }

  /** The exact event publication of the tuple. */
  ghost predicate PublishesExactly(p: Plan, selector: Selector, s: Step)
  {
    && s in p.steps && s.id == selector.stepId && s.action.Publish?
    && s.action.event in p.events && p.events[s.action.event] == selector.eventId
  }

  /** Every run publishes the tuple's event between the arm and the await. */
  ghost predicate AlwaysPublished(p: Plan, armId: string, awaitId: string, selector: Selector)
  {
    exists s :: PublishesExactly(p, selector, s)
      && AlwaysBefore(StepGraphOf(p), armId, s.id) && AlwaysBefore(StepGraphOf(p), s.id, awaitId)
  }

  lemma HasTerminalIsAlwaysEnded(p: Plan, order: seq<string>, awaitId: string, selector: Selector)
    requires Prepared(p) && IsLinearExtension(StepGraphOf(p), order) && awaitId in ById(p.steps)
    ensures HasTerminal(p, awaitId, selector) <==> AlwaysEnded(p, awaitId, selector)
  {
    hide IsLinearExtension, HasDescendant, SomeAfter, Ancestor, Prepared, ById;
    HasDescendantMeans(p, awaitId, ReleaseCheckpoint(selector));
    HasDescendantMeans(p, awaitId, Stop(selector.service));
    SomeAfterIsSomeDescendant(StepGraphOf(p), order, awaitId,
                              ActionIds(p, ReleaseCheckpoint(selector)) + ActionIds(p, Stop(selector.service)));
  }

  lemma HasAncestorIsAlwaysBefore(p: Plan, order: seq<string>, a: string, id: string)
    requires Prepared(p) && IsLinearExtension(StepGraphOf(p), order) && a in ById(p.steps) && id in ById(p.steps)
    ensures a in AncestorsOf(p, id) <==> AlwaysBefore(StepGraphOf(p), a, id)
  {
    hide IsLinearExtension, AlwaysBefore, Ancestor, ById;
    AlwaysBeforeIsAncestor(StepGraphOf(p), order, a, id);
  }

  lemma HasPublishIsAlwaysPublished(p: Plan, order: seq<string>, armId: string, awaitId: string, selector: Selector)
    requires Prepared(p) && IsLinearExtension(StepGraphOf(p), order) && armId in ById(p.steps) && awaitId in ById(p.steps)
    ensures HasMatchingPublish(p, armId, awaitId, selector) <==> AlwaysPublished(p, armId, awaitId, selector)
  {
    hide IsLinearExtension, AlwaysBefore, Prepared, ById, AncestorsOf;
    forall i | 0 <= i < |p.steps|
      ensures p.steps[i].id in ById(p.steps)
      ensures PublishesBetween(p, armId, awaitId, selector, p.steps[i]) <==>
              && PublishesExactly(p, selector, p.steps[i])
              && AlwaysBefore(StepGraphOf(p), armId, p.steps[i].id) && AlwaysBefore(StepGraphOf(p), p.steps[i].id, awaitId)
    {
      StepIsById(p, i);
      HasAncestorIsAlwaysBefore(p, order, armId, p.steps[i].id);
      HasAncestorIsAlwaysBefore(p, order, p.steps[i].id, awaitId);
    }
    if HasMatchingPublish(p, armId, awaitId, selector) {
      var i :| 0 <= i < |p.steps| && PublishesBetween(p, armId, awaitId, selector, p.steps[i]);
      assert PublishesExactly(p, selector, p.steps[i]);
    }
    if AlwaysPublished(p, armId, awaitId, selector) {
      var s :| PublishesExactly(p, selector, s)
               && AlwaysBefore(StepGraphOf(p), armId, s.id) && AlwaysBefore(StepGraphOf(p), s.id, awaitId);
      var i :| 0 <= i < |p.steps| && p.steps[i] == s;
    }
  }

  /** The rules on what happens to an awaited tuple are exact as well: each is reported exactly when some run
      breaks it. */
  lemma ArmRulesAreExact(p: Plan, order: seq<string>, i: nat)
    requires Prepared(p) && IsLinearExtension(StepGraphOf(p), order)
    requires i < |p.steps| && p.steps[i].action.ArmCheckpoint? && AwaitOf(p, p.steps[i]) != ""
    ensures var arm, awaitId := p.steps[i], AwaitOf(p, p.steps[i]);
            && (Breaks(p, i, PublishMisplaced) <==> !AlwaysPublished(p, arm.id, awaitId, arm.action.selector))
            && (Breaks(p, i, TerminalMissing) <==> !AlwaysEnded(p, awaitId, arm.action.selector))
  {
    hide AlwaysPublished, AlwaysEnded, IsLinearExtension, AwaitOf, Prepared, ById, HasMatchingPublish, HasTerminal;
    var arm, awaitId := p.steps[i], AwaitOf(p, p.steps[i]);
    StepIsById(p, i);
    var await := AuthoredAwait(p, i);
    var j :| 0 <= j < |p.steps| && p.steps[j] == await;
    StepIsById(p, j);
    HasPublishIsAlwaysPublished(p, order, arm.id, awaitId, arm.action.selector);
    HasTerminalIsAlwaysEnded(p, order, awaitId, arm.action.selector);
  }

  /* ---------- what acceptance promises in every run ---------- */

  /** In every run an armed tuple, which no other step arms, is published exactly, then awaited, then released or its
      service stopped. */
  lemma ArmLifecycle(p: Plan, order: seq<string>, i: nat) returns (publish: Step, await: Step, terminal: Step)
    requires Prepared(p) && Accepted(p) && IsLinearExtension(StepGraphOf(p), order)
    requires i < |p.steps| && p.steps[i].action.ArmCheckpoint?
    ensures var selector := p.steps[i].action.selector;
            && {publish, await, terminal} <= Authored(p)
            && publish.id == selector.stepId && publish.action.Publish?
            && publish.action.event in p.events && p.events[publish.action.event] == selector.eventId
            && await.action == AwaitCheckpoint(selector)
            && (terminal.action == ReleaseCheckpoint(selector) || terminal.action == Stop(selector.service))
    ensures forall j :: 0 <= j < |p.steps| && p.steps[j].action == p.steps[i].action ==> j == i
    ensures Before(order, p.steps[i].id, publish.id)
    ensures Before(order, publish.id, await.id)
    ensures Before(order, await.id, terminal.id)
  {
    hide *;
    var arm := p.steps[i];
    var selector := arm.action.selector;
    AcceptedArm(p, i);
    await := AuthoredAwait(p, i);
    publish := AuthoredPublish(p, arm.id, await.id, selector);
    terminal := AuthoredTerminal(p, await.id, selector);
    AncestorRuns(p, order, arm.id, publish);
    AncestorRuns(p, order, publish.id, await);
    AncestorRuns(p, order, await.id, terminal);
    AuthoredMembers(p, publish, await, terminal);
    ArmedOnce(p, i);
  }

  lemma AcceptedArm(p: Plan, i: nat)
    requires Accepted(p) && i < |p.steps| && p.steps[i].action.ArmCheckpoint?
    ensures var arm := p.steps[i];
            && AwaitOf(p, arm) != ""
            && HasMatchingPublish(p, arm.id, AwaitOf(p, arm), arm.action.selector)
            && HasTerminal(p, AwaitOf(p, arm), arm.action.selector)
  {
    assert !Breaks(p, i, AwaitMissing) && !Breaks(p, i, PublishMisplaced) && !Breaks(p, i, TerminalMissing);
  }

  lemma AuthoredPublish(p: Plan, armId: string, awaitId: string, selector: Selector) returns (publish: Step)
    requires HasMatchingPublish(p, armId, awaitId, selector)
    ensures publish in p.steps && publish.id == selector.stepId && publish.action.Publish?
    ensures publish.action.event in p.events && p.events[publish.action.event] == selector.eventId
    ensures armId in AncestorsOf(p, publish.id) && publish.id in AncestorsOf(p, awaitId)
  {
    var j :| 0 <= j < |p.steps| && PublishesBetween(p, armId, awaitId, selector, p.steps[j]);
    publish := p.steps[j];
  }

  lemma AuthoredMembers(p: Plan, a: Step, b: Step, c: Step)
    requires a in p.steps && b in p.steps && c in p.steps
    ensures {a, b, c} <= Authored(p)
  {}

  ghost function Authored(p: Plan): set<Step> { set s | s in p.steps }

  lemma AuthoredAwait(p: Plan, i: nat) returns (await: Step)
    requires i < |p.steps| && p.steps[i].action.ArmCheckpoint? && AwaitOf(p, p.steps[i]) != ""
    ensures await in p.steps && await.id == AwaitOf(p, p.steps[i])
    ensures await.action == AwaitCheckpoint(p.steps[i].action.selector)
  {
    var arm := p.steps[i];
    var j :| 0 <= j < |p.steps| && AwaitsAfter(p, arm.id, arm.action.selector, p.steps[j]) && p.steps[j].id == AwaitOf(p, arm);
    await := p.steps[j];
  }

  lemma AuthoredTerminal(p: Plan, awaitId: string, selector: Selector) returns (terminal: Step)
    requires HasTerminal(p, awaitId, selector)
    ensures terminal in p.steps && awaitId in AncestorsOf(p, terminal.id)
    ensures terminal.action == ReleaseCheckpoint(selector) || terminal.action == Stop(selector.service)
  {
    var j :| 0 <= j < |p.steps| && awaitId in AncestorsOf(p, p.steps[j].id)
             && (p.steps[j].action == ReleaseCheckpoint(selector) || p.steps[j].action == Stop(selector.service));
    terminal := p.steps[j];
  }

  lemma AncestorRuns(p: Plan, order: seq<string>, a: string, s: Step)
    requires Prepared(p) && IsLinearExtension(StepGraphOf(p), order) && s in p.steps && a in AncestorsOf(p, s.id)
    ensures Before(order, a, s.id)
  {
    var i :| 0 <= i < |p.steps| && p.steps[i] == s;
    StepIsById(p, i);
    AncestorIsBefore(StepGraphOf(p), order, a, s.id);
  }

  lemma ArmedOnce(p: Plan, i: nat)
    requires Accepted(p) && i < |p.steps| && p.steps[i].action.ArmCheckpoint?
    ensures forall j :: 0 <= j < |p.steps| && p.steps[j].action == p.steps[i].action ==> j == i
  {
    forall j | 0 <= j < |p.steps| && p.steps[j].action == p.steps[i].action
      ensures j == i
    {
      assert !Breaks(p, i, DuplicateArm) && !Breaks(p, j, DuplicateArm);
    }
  }
}
