/** The engine's plan for controlled runs: recorded lifecycles and the dependency shape of every mode. */
module ControlledShape {
  import opened Ancestors
  import opened Cardinality
  import opened FaultOrdering
  import opened LinearExtensions
  import opened Scenario
  import opened StepGraph

  datatype Mode = AggregateVersion | CrossStream | EventTime | Unsupported

  /** The topologically ordered steps with what the engine knows about them, and the declared observers; times are
      in nanoseconds. */
  datatype Compiled = Compiled(ordered: seq<Step>, ancestors: Ancestry, events: map<string, Event>, mode: Mode,
                               expectLate: bool, clockStart: int, observers: seq<string>)

  const SERVICE := "order-workflow"
  const CHECKPOINT := "before_handler"
  const MAX_DWELL := 45_000_000_000

  function EventOf(c: Compiled, publish: Step): Event
    requires publish.action.Publish? && publish.action.event in c.events
  {
    c.events[publish.action.event]
  }

  predicate IsAncestor(c: Compiled, ancestor: string, descendant: string)
  {
    descendant in c.ancestors && ancestor in c.ancestors[descendant]
  }

  /** A topic is a step id's pattern of at most 63 characters. */
  predicate SimpleTopic(topic: string) { Slug(topic) && |topic| <= 63 }

  /** What the engine asks of a single step; no other action is supported. */
  predicate Allowed(c: Compiled, s: Step)
  {
    match s.action
    case Publish(event, topic, partition, key) =>
      && event in c.events && key != "" && key == c.events[event].aggregateId && c.events[event].aggregateVersion > 0
      && partition == 0 && SimpleTopic(topic)
    case ArmCheckpoint(x) => x.name == CHECKPOINT && x.service == SERVICE && x.occurrence == 1
    case AwaitCheckpoint(x) => x.name == CHECKPOINT && 0 < s.timeout <= MAX_DWELL
    case ReleaseCheckpoint(x) => x.name == CHECKPOINT
    case AdvanceClock(nanos) => nanos > 0
    case Observe(observation) => observation in c.observers
    case _ => false
  }

  ghost predicate AllAllowed(c: Compiled) { forall i :: 0 <= i < |c.ordered| ==> Allowed(c, c.ordered[i]) }

  /** The steps of a controlled run: exact publications to partition 0 of a plainly named topic, arms of the one checkpoint
      of the one service, bounded awaits and releases of it, positive clock steps, and declared observations. */
  lemma AllowedExactly(c: Compiled, s: Step)
    ensures Allowed(c, s) <==>
            match s.action
            case Publish(event, topic, partition, key) =>
              && event in c.events && key != "" && key == c.events[event].aggregateId && c.events[event].aggregateVersion >= 1
              && partition == 0 && topic != "" && |topic| < 64 && 'a' <= topic[0] && topic[0] <= 'z'
              && forall character :: character in topic ==>
                   character == '-' || '0' <= character <= '9' || 'a' <= character <= 'z'
            case ArmCheckpoint(x) => x.name == "before_handler" && x.service == "order-workflow" && x.occurrence == 1
            case AwaitCheckpoint(x) => x.name == "before_handler" && 1 <= s.timeout <= 45_000_000_000
            case ReleaseCheckpoint(x) => x.name == "before_handler"
            case AdvanceClock(nanos) => nanos >= 1
            case Observe(observation) => observation in c.observers
            case _ => false
  {
    if s.action.Publish? {
      assert forall i :: 0 <= i < |s.action.topic| ==> s.action.topic[i] in s.action.topic;
    }
  }

  /* ---------- what the loop over the ordered steps records ---------- */

  function Advances(steps: seq<Step>): (s: seq<Step>)
    ensures forall i :: 0 <= i < |s| ==> s[i].action.AdvanceClock?
  {
    if steps == [] then []
    else
      var last := steps[|steps| - 1];
      Advances(steps[..|steps| - 1]) + (if last.action.AdvanceClock? then [last] else [])
  }

  function Observations(steps: seq<Step>): seq<string>
  {
    if steps == [] then []
    else
      var last := steps[|steps| - 1];
      Observations(steps[..|steps| - 1]) + (if last.action.Observe? then [last.action.observation] else [])
  }

  datatype Phase = Arming | Awaiting | Releasing

  predicate InPhase(phase: Phase, action: Action)
  {
    match phase
    case Arming => action.ArmCheckpoint?
    case Awaiting => action.AwaitCheckpoint?
    case Releasing => action.ReleaseCheckpoint?
  }

  /** The step recorded for every tuple in a phase: the last one. */
  function Recorded(steps: seq<Step>, phase: Phase): map<Selector, string>
  {
    if steps == [] then map[]
    else
      var last, before := steps[|steps| - 1], Recorded(steps[..|steps| - 1], phase);
      if InPhase(phase, last.action) then before[last.action.selector := last.id] else before
  }

  /** The publishing steps by id. */
  function Published(steps: seq<Step>): (m: map<string, Step>)
    ensures forall id :: id in m ==> m[id] in steps && m[id].id == id && m[id].action.Publish?
  {
    if steps == [] then map[]
    else
      var last, before := steps[|steps| - 1], Published(steps[..|steps| - 1]);
      if last.action.Publish? then before[last.id := last] else before
  }

  lemma {:induction false} AdvancesMember(steps: seq<Step>, s: Step)
    ensures s in Advances(steps) <==> s in steps && s.action.AdvanceClock?
  {
    if steps != [] {
      AdvancesMember(steps[..|steps| - 1], s);
      assert steps == steps[..|steps| - 1] + [steps[|steps| - 1]];
    }
  }

  /** A tuple is recorded exactly when a step has it. */
  lemma {:induction false} RecordedKeys(steps: seq<Step>, phase: Phase, s: Step)
    requires s in steps && InPhase(phase, s.action)
    ensures s.action.selector in Recorded(steps, phase)
  {
    var last := |steps| - 1;
    if s != steps[last] {
      assert s in steps[..last];
      RecordedKeys(steps[..last], phase, s);
    }
  }

  /** The step that is recorded, after which no step of the phase has the tuple. */
  lemma {:induction false} RecordedStep(steps: seq<Step>, phase: Phase, x: Selector) returns (i: nat)
    requires x in Recorded(steps, phase)
    ensures i < |steps| && InPhase(phase, steps[i].action) && steps[i].action.selector == x
    ensures Recorded(steps, phase)[x] == steps[i].id
    ensures forall j :: i < j < |steps| && InPhase(phase, steps[j].action) ==> steps[j].action.selector != x
  {
    var last := |steps| - 1;
    if InPhase(phase, steps[last].action) && steps[last].action.selector == x {
      i := last;
    } else {
      i := RecordedStep(steps[..last], phase, x);
    }
  }

  /* ---------- acceptance ---------- */

  /** The recorded steps of an armed tuple form a dependency chain through its exact publication. */
  ghost predicate Framed(c: Compiled, selector: Selector)
  {
    var arms, awaits, releases := Recorded(c.ordered, Arming), Recorded(c.ordered, Awaiting), Recorded(c.ordered, Releasing);
    && selector in arms && selector in awaits && selector in releases
    && selector.stepId in Published(c.ordered)
    && Published(c.ordered)[selector.stepId].action.event in c.events
    && EventOf(c, Published(c.ordered)[selector.stepId]).id == selector.eventId
    && IsAncestor(c, arms[selector], selector.stepId)
    && IsAncestor(c, selector.stepId, awaits[selector])
    && IsAncestor(c, awaits[selector], releases[selector])
  }

  ghost predicate Counted(c: Compiled)
  {
    && |Publications(c.ordered)| == 2
    && |Recorded(c.ordered, Arming)| == |Recorded(c.ordered, Awaiting)| == |Recorded(c.ordered, Releasing)| == 2
    && 0 < |Observations(c.ordered)| == |c.observers|
    && forall i :: 0 <= i < |Publications(c.ordered)| ==> Publications(c.ordered)[i].action.event in c.events
  }

  /** Every recorded await is an ancestor of every recorded release. */
  ghost predicate AwaitsBeforeReleases(c: Compiled)
  {
    var awaits, releases := Recorded(c.ordered, Awaiting), Recorded(c.ordered, Releasing);
    forall x, y :: x in awaits && y in releases ==> IsAncestor(c, awaits[x], releases[y])
  }

  /** The shape the mode asks for, given the tuples of the first and the second publication. */
  ghost predicate Shaped(c: Compiled, first: Selector, second: Selector)
    requires Counted(c)
  {
    first in Recorded(c.ordered, Releasing) && second in Recorded(c.ordered, Arming) &&
    var a, b := Publications(c.ordered)[0], Publications(c.ordered)[1];
    var advances := Advances(c.ordered);
    var release, arm := Recorded(c.ordered, Releasing)[first], Recorded(c.ordered, Arming)[second];
    match c.mode
    case AggregateVersion =>
      && |advances| == 0 && a.action.topic == b.action.topic && a.action.partition == b.action.partition
      && EventOf(c, a).aggregateVersion != EventOf(c, b).aggregateVersion
      && IsAncestor(c, release, arm)
    case CrossStream =>
      && |advances| == 0 && a.action.topic != b.action.topic && a.action.partition == 0 && b.action.partition == 0
      && AwaitsBeforeReleases(c)
    case EventTime =>
      && |advances| == 1 && a.action.topic == b.action.topic
      && EventOf(c, a).aggregateVersion < EventOf(c, b).aggregateVersion
      && IsAncestor(c, release, advances[0].id) && IsAncestor(c, advances[0].id, arm)
      && (EventOf(c, b).time < c.clockStart + advances[0].action.nanos <==> c.expectLate)
    case Unsupported => false
  }

  ghost predicate SelectorsFor(first: Step, second: Step, arms: map<Selector, string>, a: Selector, b: Selector)
  {
    && a in arms && b in arms
    && a.stepId == first.id && b.stepId == second.id && first.id != second.id && first.id != "" && second.id != ""
  }

  /** The tuples armed for the first and the second publication. */
  ghost predicate Frames(c: Compiled, first: Selector, second: Selector)
    requires |Publications(c.ordered)| == 2
  {
    SelectorsFor(Publications(c.ordered)[0], Publications(c.ordered)[1], Recorded(c.ordered, Arming), first, second)
  }

  /** The run-time contract binds every event of a topic to one step. */
  predicate Bindable(c: Compiled, first: Step, second: Step)
    requires first.action.Publish? && first.action.event in c.events
    requires second.action.Publish? && second.action.event in c.events
  {
    && EventOf(c, first).id != "" && EventOf(c, second).id != ""
    && (first.action.topic == second.action.topic ==> EventOf(c, first).id != EventOf(c, second).id)
  }

  ghost predicate WellShaped(c: Compiled)
  {
    && AllAllowed(c) && Counted(c)
    && (forall x :: x in Recorded(c.ordered, Arming) ==> Framed(c, x))
    && EventOf(c, Publications(c.ordered)[0]).aggregateId == EventOf(c, Publications(c.ordered)[1]).aggregateId
    && (exists first, second :: Frames(c, first, second) && Shaped(c, first, second))
    && Bindable(c, Publications(c.ordered)[0], Publications(c.ordered)[1])
  }

  /** The loop over the ordered steps, which stops at the first one that is not allowed. */
  method Record(c: Compiled)
    returns (ok: bool, publications: seq<Step>, published: map<string, Step>, advances: seq<Step>,
             observations: seq<string>, arms: map<Selector, string>, awaits: map<Selector, string>,
             releases: map<Selector, string>)
    ensures ok <==> AllAllowed(c)
    ensures ok ==> published == Published(c.ordered) && observations == Observations(c.ordered)
    ensures ok ==> publications == Publications(c.ordered) && advances == Advances(c.ordered)
    ensures ok ==> arms == Recorded(c.ordered, Arming) && awaits == Recorded(c.ordered, Awaiting)
    ensures ok ==> releases == Recorded(c.ordered, Releasing)
  {
    hide InPhase, Allowed;
    publications, published, advances, observations := [], map[], [], [];
    arms, awaits, releases := map[], map[], map[];
    for i := 0 to |c.ordered|
      invariant forall j :: 0 <= j < i ==> Allowed(c, c.ordered[j])
      invariant published == Published(c.ordered[..i]) && observations == Observations(c.ordered[..i])
      invariant publications == Publications(c.ordered[..i]) && advances == Advances(c.ordered[..i])
      invariant arms == Recorded(c.ordered[..i], Arming) && awaits == Recorded(c.ordered[..i], Awaiting)
      invariant releases == Recorded(c.ordered[..i], Releasing)
    {
      var s := c.ordered[i];
      if !Allowed(c, s) {
        ok := false;
        return;
      }
      RecordNext(c.ordered, i);
      match s.action
      case Publish(_, _, _, _) =>
        publications := publications + [s];
        published := published[s.id := s];
      case ArmCheckpoint(selector) => arms := arms[selector := s.id];
      case AwaitCheckpoint(selector) => awaits := awaits[selector := s.id];
      case ReleaseCheckpoint(selector) => releases := releases[selector := s.id];
      case AdvanceClock(_) => advances := advances + [s];
      case Observe(observation) => observations := observations + [observation];
      case _ =>
    }
    assert c.ordered[..|c.ordered|] == c.ordered;
    ok := true;
  }

  lemma RecordNext(steps: seq<Step>, i: nat)
    requires i < |steps|
    ensures var s, done, next := steps[i], steps[..i], steps[..i + 1];
            && Publications(next) == Publications(done) + (if s.action.Publish? then [s] else [])
            && Published(next) == (if s.action.Publish? then Published(done)[s.id := s] else Published(done))
            && Advances(next) == Advances(done) + (if s.action.AdvanceClock? then [s] else [])
            && Observations(next) == Observations(done) + (if s.action.Observe? then [s.action.observation] else [])
            && Recorded(next, Arming) ==
               (if s.action.ArmCheckpoint? then Recorded(done, Arming)[s.action.selector := s.id] else Recorded(done, Arming))
            && Recorded(next, Awaiting) ==
               (if s.action.AwaitCheckpoint? then Recorded(done, Awaiting)[s.action.selector := s.id] else Recorded(done, Awaiting))
            && Recorded(next, Releasing) ==
               (if s.action.ReleaseCheckpoint? then Recorded(done, Releasing)[s.action.selector := s.id] else Recorded(done, Releasing))
  {
    assert steps[..i + 1][..i] == steps[..i] && steps[..i + 1][i] == steps[i];
  }

  /** The tuples of the two publications, found by walking the armed tuples in any order. */
  method PublicationSelectors(first: Step, second: Step, arms: map<Selector, string>)
    returns (ok: bool, firstSelector: Selector, secondSelector: Selector)
    requires |arms| == 2
    ensures ok <==> exists a, b :: SelectorsFor(first, second, arms, a, b)
    ensures ok ==> SelectorsFor(first, second, arms, firstSelector, secondSelector)
    ensures ok ==> forall a, b :: SelectorsFor(first, second, arms, a, b) ==> a == firstSelector && b == secondSelector
  {
    var none := Selector("", "", "", "", 0);
    firstSelector, secondSelector := none, none;
    var remaining := arms.Keys;
    while remaining != {}
      invariant remaining <= arms.Keys
      invariant firstSelector.stepId != "" ==> firstSelector in arms && firstSelector.stepId == first.id
      invariant secondSelector.stepId != "" ==>
                  secondSelector in arms && secondSelector.stepId == second.id && first.id != second.id
      invariant firstSelector.stepId == "" != first.id ==> forall x :: x in arms.Keys - remaining ==> x.stepId != first.id
      invariant secondSelector.stepId == "" != second.id && first.id != second.id ==>
                  forall x :: x in arms.Keys - remaining ==> x.stepId != second.id
      decreases |remaining|
    {
      var selector :| selector in remaining;
      if selector.stepId == first.id {
        firstSelector := selector;
      } else if selector.stepId == second.id {
        secondSelector := selector;
      }
      remaining := remaining - {selector};
    }
    ok := firstSelector.stepId != "" && secondSelector.stepId != "";
    if ok {
      TwoKeys(arms.Keys, firstSelector, secondSelector);
      assert SelectorsFor(first, second, arms, firstSelector, secondSelector);
    }
  }

  lemma TwoKeys(keys: set<Selector>, a: Selector, b: Selector)
    requires |keys| == 2 && a in keys && b in keys && a != b
    ensures keys == {a, b}
  {
    assert |keys - {a, b}| == 0;
  }

  method AllFramed(c: Compiled, published: map<string, Step>, arms: map<Selector, string>, awaits: map<Selector, string>,
                   releases: map<Selector, string>) returns (ok: bool)
    requires published == Published(c.ordered) && arms == Recorded(c.ordered, Arming)
    requires awaits == Recorded(c.ordered, Awaiting) && releases == Recorded(c.ordered, Releasing)
    requires forall id :: id in published ==> published[id].action.event in c.events
    ensures ok <==> forall x :: x in arms ==> Framed(c, x)
  {
    hide Published, Recorded;
    var remaining := arms.Keys;
    while remaining != {}
      invariant remaining <= arms.Keys
      invariant forall x :: x in arms.Keys - remaining ==> Framed(c, x)
      decreases |remaining|
    {
      var selector :| selector in remaining;
      if selector.stepId !in published || EventOf(c, published[selector.stepId]).id != selector.eventId {
        return false;
      }
      if selector !in awaits || selector !in releases
         || !IsAncestor(c, arms[selector], selector.stepId)
         || !IsAncestor(c, selector.stepId, awaits[selector])
         || !IsAncestor(c, awaits[selector], releases[selector]) {
        return false;
      }
      remaining := remaining - {selector};
    }
    ok := true;
  }

  method AllAwaitsFirst(c: Compiled, awaits: map<Selector, string>, releases: map<Selector, string>) returns (ok: bool)
    ensures ok <==> forall x, y :: x in awaits && y in releases ==> IsAncestor(c, awaits[x], releases[y])
  {
    var left := releases.Keys;
    while left != {}
      invariant left <= releases.Keys
      invariant forall x, y :: x in awaits && y in releases.Keys - left ==> IsAncestor(c, awaits[x], releases[y])
      decreases |left|
    {
      var y :| y in left;
      var remaining := awaits.Keys;
      while remaining != {}
        invariant remaining <= awaits.Keys
        invariant forall x :: x in awaits.Keys - remaining ==> IsAncestor(c, awaits[x], releases[y])
        decreases |remaining|
      {
        var x :| x in remaining;
        if !IsAncestor(c, awaits[x], releases[y]) {
          return false;
        }
        remaining := remaining - {x};
      }
      left := left - {y};
    }
    ok := true;
  }

  method ValidateControlledShape(c: Compiled, publications: seq<Step>, advances: seq<Step>, arms: map<Selector, string>,
                                 awaits: map<Selector, string>, releases: map<Selector, string>) returns (ok: bool)
    requires Counted(c) && forall x :: x in arms ==> Framed(c, x)
    requires publications == Publications(c.ordered) && advances == Advances(c.ordered)
    requires arms == Recorded(c.ordered, Arming) && awaits == Recorded(c.ordered, Awaiting)
    requires releases == Recorded(c.ordered, Releasing)
    ensures ok <==> exists first, second :: Frames(c, first, second) && Shaped(c, first, second)
  {
    hide Publications, Advances, Recorded;
    var a, b := publications[0], publications[1];
    var found, first, second := PublicationSelectors(a, b, arms);
    if !found {
      return false;
    }
    assert Frames(c, first, second);
    var release, arm := releases[first], arms[second];
    match c.mode
    case AggregateVersion =>
      ok := |advances| == 0 && a.action.topic == b.action.topic && a.action.partition == b.action.partition
            && EventOf(c, a).aggregateVersion != EventOf(c, b).aggregateVersion && IsAncestor(c, release, arm);
    case CrossStream =>
      if |advances| == 0 && a.action.topic != b.action.topic && a.action.partition == 0 && b.action.partition == 0 {
        ok := AllAwaitsFirst(c, awaits, releases);
      } else {
        ok := false;
      }
    case EventTime =>
      if |advances| == 1 && a.action.topic == b.action.topic
         && EventOf(c, a).aggregateVersion < EventOf(c, b).aggregateVersion
         && IsAncestor(c, release, advances[0].id) && IsAncestor(c, advances[0].id, arm) {
        var watermark := c.clockStart + advances[0].action.nanos;
        ok := (EventOf(c, b).time < watermark) == c.expectLate;
      } else {
        ok := false;
      }
    case Unsupported =>
      ok := false;
  }

  /** The engine takes a plan exactly when it is well shaped. */
  method CompileControlled(c: Compiled) returns (ok: bool)
    ensures ok <==> WellShaped(c)
  {
    hide Publications, Advances, Recorded, Published, Observations, Framed, Shaped, Frames, AllAllowed;
    var publications, published, advances, observations, arms, awaits, releases;
    ok, publications, published, advances, observations, arms, awaits, releases := Record(c);
    if !ok {
      return;
    }
    PublicationsAreDeclared(c);
    if |publications| != 2 || |arms| != 2 || |awaits| != 2 || |releases| != 2 || |observations| == 0
       || |observations| != |c.observers| {
      return false;
    }
    PublishedAreDeclared(c);
    var framed := AllFramed(c, published, arms, awaits, releases);
    if !framed || EventOf(c, publications[0]).aggregateId != EventOf(c, publications[1]).aggregateId {
      return false;
    }
    ok := ValidateControlledShape(c, publications, advances, arms, awaits, releases);
    if ok {
      ok := Bindable(c, publications[0], publications[1]);
    }
  }

  /** An accepted plan publishes two events of one aggregate in two steps, on a topic each or under different event ids. */
  lemma AcceptedPublications(c: Compiled)
    requires WellShaped(c)
    ensures |Publications(c.ordered)| == 2
    ensures var p, q := Publications(c.ordered)[0], Publications(c.ordered)[1];
            && p.id != q.id && p.action.event in c.events && q.action.event in c.events
            && var e, f := c.events[p.action.event], c.events[q.action.event];
               && e.id != "" && f.id != "" && e.aggregateId == f.aggregateId == p.action.key == q.action.key
               && (p.action.topic == q.action.topic ==> e.id != f.id)
               && p.action.partition == q.action.partition == 0
  {
    hide Publications, Recorded, Shaped, SimpleTopic;
    PublicationsMember(c.ordered, Publications(c.ordered)[0]);
    PublicationsMember(c.ordered, Publications(c.ordered)[1]);
  }

  /** The tuples that some step arms, awaits or releases. */
  ghost function Tuples(steps: seq<Step>, phase: Phase): set<Selector>
  {
    set s | s in steps && InPhase(phase, s.action) :: s.action.selector
  }

  lemma RecordedTuples(steps: seq<Step>, phase: Phase)
    ensures Recorded(steps, phase).Keys == Tuples(steps, phase)
  {
    hide Recorded;
    forall x
      ensures x in Recorded(steps, phase) <==> x in Tuples(steps, phase)
    {
      if x in Recorded(steps, phase) { var i := RecordedStep(steps, phase, x); }
      if x in Tuples(steps, phase) {
        var s :| s in steps && InPhase(phase, s.action) && s.action.selector == x;
        RecordedKeys(steps, phase, s);
      }
    }
  }

  ghost function ClockSteps(steps: seq<Step>): set<Step> { set s | s in steps && s.action.AdvanceClock? }

  /** An accepted plan arms, awaits and releases the same two tuples, those of its publications, and has the topics, versions
      and clock steps that its mode asks for. */
  lemma AcceptedShape(c: Compiled)
    requires WellShaped(c)
    ensures |Publications(c.ordered)| == 2
    ensures |Tuples(c.ordered, Arming)| == 2
    ensures Tuples(c.ordered, Arming) == Tuples(c.ordered, Awaiting) == Tuples(c.ordered, Releasing)
    ensures forall x :: x in Tuples(c.ordered, Arming) ==>
              exists p :: p in c.ordered && p.action.Publish? && p.id == x.stepId && p.action.event in c.events
                          && c.events[p.action.event].id == x.eventId
    ensures var p, q := Publications(c.ordered)[0], Publications(c.ordered)[1];
            && p.action.event in c.events && q.action.event in c.events
            && var e, f := c.events[p.action.event], c.events[q.action.event];
               match c.mode
               case AggregateVersion =>
                 p.action.topic == q.action.topic && e.aggregateVersion != f.aggregateVersion && ClockSteps(c.ordered) == {}
               case CrossStream => p.action.topic != q.action.topic && ClockSteps(c.ordered) == {}
               case EventTime =>
                 && p.action.topic == q.action.topic && e.aggregateVersion < f.aggregateVersion
                 && exists s :: ClockSteps(c.ordered) == {s} && s.action.AdvanceClock?
                                && (f.time < c.clockStart + s.action.nanos <==> c.expectLate)
               case Unsupported => false
  {
    hide Publications, Recorded, Advances, SimpleTopic, IsAncestor, AllAllowed, Published, Tuples;
    RecordedTuples(c.ordered, Arming);
    RecordedTuples(c.ordered, Awaiting);
    RecordedTuples(c.ordered, Releasing);
    SameTuples(c);
    forall x | x in Recorded(c.ordered, Arming)
      ensures exists p :: p in c.ordered && p.action.Publish? && p.id == x.stepId && p.action.event in c.events
                          && c.events[p.action.event].id == x.eventId
    {
      assert Framed(c, x);
      var p := Published(c.ordered)[x.stepId];
    }
    ClockStepsAre(c.ordered);
  }

  lemma SameTuples(c: Compiled)
    requires WellShaped(c)
    ensures Recorded(c.ordered, Arming).Keys == Recorded(c.ordered, Awaiting).Keys == Recorded(c.ordered, Releasing).Keys
  {
    hide Publications, Recorded, Advances, IsAncestor, AllAllowed, Published, EventOf;
    var arms, awaits, releases := Recorded(c.ordered, Arming).Keys, Recorded(c.ordered, Awaiting).Keys,
                                  Recorded(c.ordered, Releasing).Keys;
    assert arms <= awaits && arms <= releases by {
      forall x | x in arms
        ensures x in awaits && x in releases
      {
        assert Framed(c, x);
      }
    }
    SubsetOfSameSize(arms, awaits);
    SubsetOfSameSize(arms, releases);
  }

  lemma SubsetOfSameSize(a: set<Selector>, b: set<Selector>)
    requires a <= b && |a| == |b|
    ensures a == b
  {
    assert |b - a| == 0;
  }

  lemma {:induction false} ClockStepsAre(steps: seq<Step>)
    ensures ClockSteps(steps) == set s | s in Advances(steps)
    ensures |Advances(steps)| == 0 ==> ClockSteps(steps) == {}
    ensures |Advances(steps)| == 1 ==> ClockSteps(steps) == {Advances(steps)[0]}
  {
    forall s
      ensures s in ClockSteps(steps) <==> s in Advances(steps)
    {
      AdvancesMember(steps, s);
    }
  }

  lemma PublicationsAreDeclared(c: Compiled)
    requires AllAllowed(c)
    ensures forall i :: 0 <= i < |Publications(c.ordered)| ==> Publications(c.ordered)[i].action.event in c.events
  {
    hide Publications;
    forall i | 0 <= i < |Publications(c.ordered)|
      ensures Publications(c.ordered)[i].action.event in c.events
    {
      PublicationsMember(c.ordered, Publications(c.ordered)[i]);
    }
  }

  lemma PublishedAreDeclared(c: Compiled)
    requires Counted(c)
    ensures forall id :: id in Published(c.ordered) ==> Published(c.ordered)[id].action.event in c.events
  {
    hide Publications, Published, Recorded;
    forall id | id in Published(c.ordered)
      ensures Published(c.ordered)[id].action.event in c.events
    {
      PublicationsMember(c.ordered, Published(c.ordered)[id]);
    }
  }

  /* ---------- what acceptance promises in every run ---------- */

  ghost function Steps(c: Compiled): Graph { GraphOf(ById(c.ordered)) }

  /** The ordered steps are a linear extension, and every step has its strict ancestors. */
  ghost predicate Ordered(c: Compiled)
  {
    && UniqueIds(c.ordered) && IsLinearExtension(Steps(c), Ids(c.ordered))
    && forall id :: id in ById(c.ordered) ==> id in c.ancestors && IsAncestorSet(Steps(c), id, c.ancestors[id])
  }

  lemma RecordedIsStep(c: Compiled, phase: Phase, x: Selector)
    requires x in Recorded(c.ordered, phase)
    ensures Recorded(c.ordered, phase)[x] in ById(c.ordered)
  {
    hide Recorded, ById;
    var i := RecordedStep(c.ordered, phase, x);
  }

  lemma IsAncestorMeans(c: Compiled, a: string, id: string)
    requires Ordered(c) && id in ById(c.ordered)
    ensures IsAncestor(c, a, id) <==> Ancestor(Steps(c), a, id)
  {
    hide Ancestor, ById;
  }

  lemma IsAncestorRuns(c: Compiled, o: seq<string>, a: string, id: string)
    requires Ordered(c) && IsLinearExtension(Steps(c), o) && id in ById(c.ordered) && IsAncestor(c, a, id)
    ensures Before(o, a, id)
  {
    hide Ancestor, ById, Before, Ordered, IsLinearExtension, IsAncestor;
    IsAncestorMeans(c, a, id);
    AncestorIsBefore(Steps(c), o, a, id);
  }

  /** In every run the recorded steps of a tuple arm, publish, block and release in turn. */
  lemma RecordedLifecycle(c: Compiled, o: seq<string>, x: Selector)
    requires WellShaped(c) && Ordered(c) && IsLinearExtension(Steps(c), o) && x in Recorded(c.ordered, Arming)
    ensures var awaits, releases := Recorded(c.ordered, Awaiting), Recorded(c.ordered, Releasing);
            && x in awaits && x in releases
            && Before(o, Recorded(c.ordered, Arming)[x], x.stepId)
            && Before(o, x.stepId, awaits[x])
            && Before(o, awaits[x], releases[x])
  {
    hide Ancestor, ById, Before, Ordered, IsLinearExtension, IsAncestor, Recorded, Counted, Shaped, Frames;
    assert Framed(c, x);
    RecordedIsStep(c, Awaiting, x);
    RecordedIsStep(c, Releasing, x);
    assert x.stepId in ById(c.ordered);
    IsAncestorRuns(c, o, Recorded(c.ordered, Arming)[x], x.stepId);
    IsAncestorRuns(c, o, x.stepId, Recorded(c.ordered, Awaiting)[x]);
    IsAncestorRuns(c, o, Recorded(c.ordered, Awaiting)[x], Recorded(c.ordered, Releasing)[x]);
  }

  /** What the mode adds: the first tuple is released before the second is armed, with the clock step between
      them in event-time runs; in cross-stream runs both recorded awaits come before both recorded releases. */
  lemma ModeOrder(c: Compiled, o: seq<string>) returns (first: Selector, second: Selector)
    requires WellShaped(c) && Ordered(c) && IsLinearExtension(Steps(c), o)
    ensures Counted(c) && Frames(c, first, second)
    ensures first in Recorded(c.ordered, Releasing) && second in Recorded(c.ordered, Arming)
    ensures var release, arm := Recorded(c.ordered, Releasing)[first], Recorded(c.ordered, Arming)[second];
            match c.mode
            case AggregateVersion => Before(o, release, arm)
            case CrossStream => RecordedAwaitsFirst(c, o)
            case EventTime =>
              |Advances(c.ordered)| == 1 && Before(o, release, Advances(c.ordered)[0].id) && Before(o, Advances(c.ordered)[0].id, arm)
            case Unsupported => false
  {
    hide Ancestor, ById, Before, Ordered, IsLinearExtension, IsAncestor, Recorded, Frames, Publications, Advances;
    first, second :| Frames(c, first, second) && Shaped(c, first, second);
    RecordedIsStep(c, Arming, second);
    var release, arm := Recorded(c.ordered, Releasing)[first], Recorded(c.ordered, Arming)[second];
    match c.mode
    case AggregateVersion => IsAncestorRuns(c, o, release, arm);
    case CrossStream =>
      forall x, y | x in Recorded(c.ordered, Awaiting) && y in Recorded(c.ordered, Releasing)
        ensures Before(o, Recorded(c.ordered, Awaiting)[x], Recorded(c.ordered, Releasing)[y])
      {
        RecordedIsStep(c, Releasing, y);
        IsAncestorRuns(c, o, Recorded(c.ordered, Awaiting)[x], Recorded(c.ordered, Releasing)[y]);
      }
    case EventTime =>
      AdvancesMember(c.ordered, Advances(c.ordered)[0]);
      IsAncestorRuns(c, o, release, Advances(c.ordered)[0].id);
      IsAncestorRuns(c, o, Advances(c.ordered)[0].id, arm);
    case Unsupported =>
  }

  ghost predicate RecordedAwaitsFirst(c: Compiled, o: seq<string>)
  {
    var awaits, releases := Recorded(c.ordered, Awaiting), Recorded(c.ordered, Releasing);
    forall x, y :: x in awaits && y in releases ==> Before(o, awaits[x], releases[y])
  }

  /** Every await step of the run comes before every release step. */
  ghost predicate AwaitsFirst(c: Compiled, o: seq<string>)
  {
    forall i, j :: AwaitAndRelease(c, i, j) ==> Before(o, c.ordered[i].id, c.ordered[j].id)
  }

  ghost predicate AwaitAndRelease(c: Compiled, i: int, j: int)
  {
    && 0 <= i < |c.ordered| && 0 <= j < |c.ordered|
    && c.ordered[i].action.AwaitCheckpoint? && c.ordered[j].action.ReleaseCheckpoint?
  }

  /** The step is not the one recorded for its tuple: a later step has the same tuple and the same phase. */
  predicate Shadowed(c: Compiled, phase: Phase, i: nat)
    requires i < |c.ordered| && InPhase(phase, c.ordered[i].action)
  {
    exists j :: i < j < |c.ordered| && InPhase(phase, c.ordered[j].action) && c.ordered[j].action.selector == c.ordered[i].action.selector
  }

  /** The pairs that the engine does not look at are ordered too. */
  ghost predicate ShadowedAreOrdered(c: Compiled)
  {
    forall i, j :: AwaitAndRelease(c, i, j) && (Shadowed(c, Awaiting, i) || Shadowed(c, Releasing, j)) ==>
      IsAncestor(c, c.ordered[i].id, c.ordered[j].id)
  }

  lemma UnshadowedIsRecorded(c: Compiled, phase: Phase, i: nat)
    requires i < |c.ordered| && InPhase(phase, c.ordered[i].action) && !Shadowed(c, phase, i)
    ensures c.ordered[i].action.selector in Recorded(c.ordered, phase)
    ensures Recorded(c.ordered, phase)[c.ordered[i].action.selector] == c.ordered[i].id
  {
    hide Recorded;
    RecordedKeys(c.ordered, phase, c.ordered[i]);
    var j := RecordedStep(c.ordered, phase, c.ordered[i].action.selector);
  }

  /** An accepted cross-stream plan blocks both handlers before either release in every run exactly when the
      awaits and releases that the engine does not record are ordered as well. */
  lemma CrossStreamBlocksBoth(c: Compiled)
    requires WellShaped(c) && Ordered(c) && c.mode.CrossStream?
    ensures (forall o :: IsLinearExtension(Steps(c), o) ==> AwaitsFirst(c, o)) <==> ShadowedAreOrdered(c)
  {
    hide Ancestor, ById, Before, Ordered, IsLinearExtension, IsAncestor, Recorded, Shadowed, Counted, Frames, Framed;
    AcceptedAwaitsFirst(c);
    forall i, j | AwaitAndRelease(c, i, j)
      ensures IsAncestor(c, c.ordered[i].id, c.ordered[j].id) <==> AlwaysBefore(Steps(c), c.ordered[i].id, c.ordered[j].id)
      ensures IsAncestor(c, c.ordered[i].id, c.ordered[j].id) || Shadowed(c, Awaiting, i) || Shadowed(c, Releasing, j)
    {
      PairIsOrdered(c, i, j);
      if !Shadowed(c, Awaiting, i) && !Shadowed(c, Releasing, j) {
        UnshadowedIsRecorded(c, Awaiting, i);
        UnshadowedIsRecorded(c, Releasing, j);
      }
    }
    if forall o :: IsLinearExtension(Steps(c), o) ==> AwaitsFirst(c, o) {
      forall i, j | AwaitAndRelease(c, i, j)
        ensures IsAncestor(c, c.ordered[i].id, c.ordered[j].id)
      {
        assert AlwaysBefore(Steps(c), c.ordered[i].id, c.ordered[j].id);
      }
    }
    if ShadowedAreOrdered(c) {
      forall o, i, j | IsLinearExtension(Steps(c), o) && AwaitAndRelease(c, i, j)
        ensures Before(o, c.ordered[i].id, c.ordered[j].id)
      {
        assert AlwaysBefore(Steps(c), c.ordered[i].id, c.ordered[j].id);
      }
    }
  }

  lemma AcceptedAwaitsFirst(c: Compiled)
    requires WellShaped(c) && c.mode.CrossStream?
    ensures AwaitsBeforeReleases(c)
  {}

  lemma PairIsOrdered(c: Compiled, i: nat, j: nat)
    requires Ordered(c) && i < |c.ordered| && j < |c.ordered|
    ensures IsAncestor(c, c.ordered[i].id, c.ordered[j].id) <==> AlwaysBefore(Steps(c), c.ordered[i].id, c.ordered[j].id)
  {
    hide Ancestor, AlwaysBefore, IsAncestor;
    ByIdUnique(c.ordered, i);
    ByIdUnique(c.ordered, j);
    IsAncestorMeans(c, c.ordered[i].id, c.ordered[j].id);
    AlwaysBeforeIsAncestor(Steps(c), Ids(c.ordered), c.ordered[i].id, c.ordered[j].id);
  }
}
