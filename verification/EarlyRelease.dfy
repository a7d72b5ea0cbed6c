/** An accepted cross-stream plan that releases one handler before the other is blocked. */
module EarlyRelease {
  import opened Ancestors
  import opened Cardinality
  import opened ControlledShape
  import opened FaultOrdering
  import opened LinearExtensions
  import opened Scenario
  import opened StepGraph
  import opened Text

  function A(): Selector { Selector(SERVICE, CHECKPOINT, "paid", "b", 1) }

  function B(): Selector { Selector(SERVICE, CHECKPOINT, "packed", "f", 1) }

  /** Two lifecycles and an observation; the first tuple is released by step d already, which only the later step h
      hides. */
  function EarlySteps(): (steps: seq<Step>)
    ensures |steps| == 10
  {
    [
      Step("a", false, [], 0, ArmCheckpoint(A())),
      Step("b", false, ["a"], 0, Publish("x", "payments", 0, "order")),
      Step("c", false, ["b"], 1, AwaitCheckpoint(A())),
      Step("d", false, ["c"], 0, ReleaseCheckpoint(A())),
      Step("e", false, [], 0, ArmCheckpoint(B())),
      Step("f", false, ["e"], 0, Publish("y", "inventory", 0, "order")),
      Step("g", false, ["f"], 1, AwaitCheckpoint(B())),
      Step("h", false, ["d", "g"], 0, ReleaseCheckpoint(A())),
      Step("i", false, ["c", "g"], 0, ReleaseCheckpoint(B())),
      Step("j", false, ["h", "i"], 1, Observe("orders"))
    ]
  }

  ghost function EarlyAncestors(): Ancestry
  {
    var g := GraphOf(ById(EarlySteps()));
    map id | id in g :: AncestorSet(g, id)
  }

  ghost function EarlyPlan(): Compiled
  {
    Compiled(EarlySteps(), EarlyAncestors(), map["x" := Event("paid", "order", 1, 0), "y" := Event("packed", "order", 2, 0)],
             CrossStream, false, 0, ["orders"])
  }

  /* ---------- what the plan looks like, by position ---------- */

  ghost predicate HasActions(s: seq<Step>, a: Selector, b: Selector)
  {
    && |s| == 10
    && s[0].action == ArmCheckpoint(a) && s[1].action.Publish? && s[2].action == AwaitCheckpoint(a)
    && s[3].action == ReleaseCheckpoint(a)
    && s[4].action == ArmCheckpoint(b) && s[5].action.Publish? && s[6].action == AwaitCheckpoint(b)
    && s[7].action == ReleaseCheckpoint(a) && s[8].action == ReleaseCheckpoint(b)
    && s[9].action.Observe?
  }

  ghost predicate HasDependencies(s: seq<Step>)
  {
    && |s| == 10
    && s[0].dependsOn == [] && s[1].dependsOn == [s[0].id] && s[2].dependsOn == [s[1].id] && s[3].dependsOn == [s[2].id]
    && s[4].dependsOn == [] && s[5].dependsOn == [s[4].id] && s[6].dependsOn == [s[5].id]
    && s[7].dependsOn == [s[3].id, s[6].id] && s[8].dependsOn == [s[2].id, s[6].id]
    && s[9].dependsOn == [s[7].id, s[8].id]
  }

  lemma EarlyFacts()
    ensures HasActions(EarlySteps(), A(), B()) && HasDependencies(EarlySteps())
  {}

  lemma EarlyIsUnique()
    ensures UniqueIds(EarlySteps())
  {
    var s := EarlySteps();
    forall i, j | 0 <= i < j < 10
      ensures Ids(s)[i] != Ids(s)[j]
    {
      assert s[i].id[0] != s[j].id[0];
    }
  }

  lemma UniqueById(s: seq<Step>)
    requires UniqueIds(s)
    ensures ById(s).Keys == Elements(Ids(s))
    ensures forall i :: 0 <= i < |s| ==> s[i].id in ById(s) && ById(s)[s[i].id] == s[i]
  {
    hide ById;
    IdsCount(s);
    forall i | 0 <= i < |s|
      ensures s[i].id in ById(s) && ById(s)[s[i].id] == s[i]
    {
      ByIdUnique(s, i);
    }
  }

  /* ---------- what the engine records ---------- */

  /** What the loop over the ordered steps has recorded after some of them. */
  datatype Log = Log(publications: seq<Step>, published: map<string, Step>, advances: seq<Step>, observations: seq<string>,
                     arms: map<Selector, string>, awaits: map<Selector, string>, releases: map<Selector, string>)

  function LogOf(s: seq<Step>): Log
  {
    Log(Publications(s), Published(s), Advances(s), Observations(s), Recorded(s, Arming), Recorded(s, Awaiting),
        Recorded(s, Releasing))
  }

  function Logged(log: Log, s: Step): Log
  {
    match s.action
    case Publish(_, _, _, _) => log.(publications := log.publications + [s], published := log.published[s.id := s])
    case ArmCheckpoint(x) => log.(arms := log.arms[x := s.id])
    case AwaitCheckpoint(x) => log.(awaits := log.awaits[x := s.id])
    case ReleaseCheckpoint(x) => log.(releases := log.releases[x := s.id])
    case AdvanceClock(_) => log.(advances := log.advances + [s])
    case Observe(observation) => log.(observations := log.observations + [observation])
    case _ => log
  }

  lemma LogNext(s: seq<Step>, i: nat)
    requires i < |s|
    ensures LogOf(s[..i + 1]) == Logged(LogOf(s[..i]), s[i])
  {
    hide Publications, Published, Advances, Observations, Recorded;
    RecordNext(s, i);
  }

  lemma LogStart(s: seq<Step>)
    ensures LogOf(s[..0]) == Log([], map[], [], [], map[], map[], map[]) && s[..|s|] == s
  {}

  lemma EarlyLogHalf(s: seq<Step>, a: Selector, b: Selector)
    requires HasActions(s, a, b)
    ensures LogOf(s[..5]) == Log([s[1]], map[s[1].id := s[1]], [], [], map[a := s[0].id, b := s[4].id], map[a := s[2].id],
                                 map[a := s[3].id])
  {
    hide LogOf;
    LogStart(s);
    LogNext(s, 0);
    LogNext(s, 1);
    LogNext(s, 2);
    LogNext(s, 3);
    LogNext(s, 4);
  }

  lemma EarlyLog(s: seq<Step>, a: Selector, b: Selector)
    requires HasActions(s, a, b)
    ensures LogOf(s) == Log([s[1], s[5]], map[s[1].id := s[1], s[5].id := s[5]], [], [s[9].action.observation],
                            map[a := s[0].id, b := s[4].id], map[a := s[2].id, b := s[6].id], map[a := s[7].id, b := s[8].id])
  {
    hide LogOf;
    LogStart(s);
    EarlyLogHalf(s, a, b);
    LogNext(s, 5);
    LogNext(s, 6);
    LogNext(s, 7);
    LogNext(s, 8);
    LogNext(s, 9);
  }

  ghost predicate HasRecord(c: Compiled, a: Selector, b: Selector)
  {
    && |c.ordered| == 10
    && Recorded(c.ordered, Arming) == map[a := c.ordered[0].id, b := c.ordered[4].id]
    && Recorded(c.ordered, Awaiting) == map[a := c.ordered[2].id, b := c.ordered[6].id]
    && Recorded(c.ordered, Releasing) == map[a := c.ordered[7].id, b := c.ordered[8].id]
    && c.ordered[1].action.Publish? && c.ordered[5].action.Publish?
    && Publications(c.ordered) == [c.ordered[1], c.ordered[5]] && Advances(c.ordered) == []
    && c.ordered[9].action.Observe? && Observations(c.ordered) == [c.ordered[9].action.observation]
    && c.ordered[1].id in Published(c.ordered) && Published(c.ordered)[c.ordered[1].id] == c.ordered[1]
    && c.ordered[5].id in Published(c.ordered) && Published(c.ordered)[c.ordered[5].id] == c.ordered[5]
  }

  lemma EarlyHasRecord(c: Compiled, a: Selector, b: Selector)
    requires UniqueIds(c.ordered) && HasActions(c.ordered, a, b)
    ensures HasRecord(c, a, b)
  {
    hide Recorded, Publications, Published, Advances, Observations, UniqueIds;
    EarlyLog(c.ordered, a, b);
    UniqueMeansDistinct(c.ordered);
  }

  /** The tuples fit the two publications, which fit the cross-stream mode. */
  ghost predicate HasTuples(c: Compiled, a: Selector, b: Selector)
    requires HasRecord(c, a, b)
  {
    var first, second := c.ordered[1], c.ordered[5];
    && a != b && first.id != second.id && first.id != "" && second.id != ""
    && a.stepId == first.id && b.stepId == second.id
    && first.action.event in c.events && second.action.event in c.events
    && EventOf(c, first).id == a.eventId && EventOf(c, second).id == b.eventId
    && EventOf(c, first).aggregateId == EventOf(c, second).aggregateId
    && c.mode.CrossStream? && first.action.topic != second.action.topic
    && first.action.partition == 0 && second.action.partition == 0
    && a.eventId != "" && b.eventId != "" && |c.observers| == 1
  }

  lemma RecordIsCounted(c: Compiled, a: Selector, b: Selector)
    requires HasRecord(c, a, b) && HasTuples(c, a, b)
    ensures Counted(c) && Frames(c, a, b)
    ensures EventOf(c, Publications(c.ordered)[0]).aggregateId == EventOf(c, Publications(c.ordered)[1]).aggregateId
    ensures Bindable(c, Publications(c.ordered)[0], Publications(c.ordered)[1])
  {
    hide Recorded, Publications, Published, Advances, Observations;
  }

  lemma RecordIsFramed(c: Compiled, a: Selector, b: Selector, x: Selector)
    requires HasRecord(c, a, b) && HasTuples(c, a, b) && HasChain(c) && x in Recorded(c.ordered, Arming)
    ensures Framed(c, x)
  {
    hide Recorded, Publications, Published, Advances, Observations, IsAncestor, EventOf;
    assert Recorded(c.ordered, Arming).Keys == {a, b};
    if x == a {
      assert Framed(c, a);
    } else {
      assert x == b && Framed(c, b);
    }
  }

  lemma RecordAwaitsFirst(c: Compiled, a: Selector, b: Selector)
    requires HasRecord(c, a, b) && HasChain(c)
    ensures AwaitsBeforeReleases(c)
  {
    hide Recorded, Publications, Published, Advances, Observations, IsAncestor;
    var awaits, releases := Recorded(c.ordered, Awaiting), Recorded(c.ordered, Releasing);
    assert awaits.Keys == releases.Keys == {a, b};
  }

  lemma RecordIsShaped(c: Compiled, a: Selector, b: Selector)
    requires HasRecord(c, a, b) && HasTuples(c, a, b) && Counted(c) && AwaitsBeforeReleases(c)
    ensures Shaped(c, a, b)
  {
    hide Recorded, Publications, Published, Advances, Observations, IsAncestor, AwaitsBeforeReleases;
  }

  lemma RecordIsWellShaped(c: Compiled, a: Selector, b: Selector)
    requires HasRecord(c, a, b) && HasTuples(c, a, b) && HasChain(c) && AllAllowed(c)
    ensures WellShaped(c)
  {
    hide HasRecord, HasTuples, HasChain, Recorded, Framed, Shaped, Frames, Counted, Publications, Bindable,
         AwaitsBeforeReleases, AllAllowed;
    RecordIsCounted(c, a, b);
    RecordAwaitsFirst(c, a, b);
    RecordIsShaped(c, a, b);
    forall x | x in Recorded(c.ordered, Arming)
      ensures Framed(c, x)
    {
      RecordIsFramed(c, a, b, x);
    }
  }

  /* ---------- its graph ---------- */

  ghost predicate HasChain(c: Compiled)
  {
    && |c.ordered| == 10
    && Chained(c, 0, 1) && Chained(c, 1, 2) && Chained(c, 2, 7) && Chained(c, 2, 8)
    && Chained(c, 4, 5) && Chained(c, 5, 6) && Chained(c, 6, 7) && Chained(c, 6, 8)
  }

  ghost predicate Chained(c: Compiled, i: nat, j: nat)
    requires i < |c.ordered| && j < |c.ordered|
  {
    IsAncestor(c, c.ordered[i].id, c.ordered[j].id)
  }

  lemma DependencyIsAncestor(c: Compiled, i: nat, d: string)
    requires Ordered(c) && i < |c.ordered| && d in c.ordered[i].dependsOn
    ensures IsAncestor(c, d, c.ordered[i].id)
  {
    hide IsAncestor, Ancestor;
    UniqueById(c.ordered);
    AncestorByEdge(Steps(c), c.ordered[i].id, d);
    IsAncestorMeans(c, d, c.ordered[i].id);
  }

  lemma AncestorOfDependency(c: Compiled, a: string, i: nat, d: string)
    requires Ordered(c) && i < |c.ordered| && d in c.ordered[i].dependsOn && d in ById(c.ordered) && IsAncestor(c, a, d)
    ensures IsAncestor(c, a, c.ordered[i].id)
  {
    hide IsAncestor, Ancestor, Ordered;
    DependencyIsAncestor(c, i, d);
    UniqueIdsOf(c);
    UniqueById(c.ordered);
    IsAncestorMeans(c, d, c.ordered[i].id);
    IsAncestorMeans(c, a, d);
    AncestorTransitive(Steps(c), a, d, c.ordered[i].id);
    IsAncestorMeans(c, a, c.ordered[i].id);
  }

  lemma UniqueIdsOf(c: Compiled)
    requires Ordered(c)
    ensures UniqueIds(c.ordered)
  {}

  lemma EarlyChain(c: Compiled)
    requires Ordered(c) && HasDependencies(c.ordered)
    ensures HasChain(c)
  {
    hide IsAncestor, Ordered, ById, UniqueIds;
    var s := c.ordered;
    DependencyIsAncestor(c, 1, s[0].id);
    DependencyIsAncestor(c, 2, s[1].id);
    DependencyIsAncestor(c, 3, s[2].id);
    DependencyIsAncestor(c, 5, s[4].id);
    DependencyIsAncestor(c, 6, s[5].id);
    DependencyIsAncestor(c, 7, s[6].id);
    DependencyIsAncestor(c, 8, s[2].id);
    DependencyIsAncestor(c, 8, s[6].id);
    UniqueIdsOf(c);
    UniqueById(s);
    AncestorOfDependency(c, s[2].id, 7, s[3].id);
  }

  /* ---------- its runs ---------- */

  ghost predicate AfterDependencies(s: seq<Step>, k: nat)
    requires k < |s|
  {
    DependencySet(s[k]) <= Elements(Ids(s)[..k])
  }

  lemma AuthoredAt(s: seq<Step>, k: nat)
    requires UniqueIds(s) && k < |s| && AfterDependencies(s, k)
    ensures s[k].id in GraphOf(ById(s)) && GraphOf(ById(s))[s[k].id] <= Elements(Ids(s)[..k])
  {
    hide ById, DependencySet, Elements, UniqueIds;
    ByIdUnique(s, k);
  }

  lemma AuthoredKeys(s: seq<Step>)
    requires UniqueIds(s)
    ensures Elements(Ids(s)) == GraphOf(ById(s)).Keys
  {
    hide ById, UniqueIds, DependencySet;
    UniqueById(s);
  }

  /** Steps authored after their dependencies are a linear extension as they stand. */
  lemma AuthoredInOrder(s: seq<Step>)
    requires UniqueIds(s) && forall k :: 0 <= k < |s| ==> AfterDependencies(s, k)
    ensures IsLinearExtension(GraphOf(ById(s)), Ids(s))
  {
    hide ById, UniqueIds, Elements, GraphOf, AfterDependencies;
    AuthoredKeys(s);
    UniqueMeansDistinct(s);
    var g, order := GraphOf(ById(s)), Ids(s);
    forall k | 0 <= k < |order|
      ensures order[k] in g && g[order[k]] <= Elements(order[..k])
    {
      AuthoredAt(s, k);
    }
  }

  lemma UniqueMeansDistinct(s: seq<Step>)
    requires UniqueIds(s)
    ensures Distinct(Ids(s))
  {}

  lemma AfterOne(s: seq<Step>, i: nat, j: nat)
    requires j < i < |s| && s[i].dependsOn == [s[j].id]
    ensures AfterDependencies(s, i)
  {
    assert Ids(s)[..i][j] == s[j].id;
  }

  lemma AfterTwo(s: seq<Step>, i: nat, j: nat, k: nat)
    requires j < i < |s| && k < i && s[i].dependsOn == [s[j].id, s[k].id]
    ensures AfterDependencies(s, i)
  {
    assert Ids(s)[..i][j] == s[j].id && Ids(s)[..i][k] == s[k].id;
  }

  lemma EarlyIsInOrder(s: seq<Step>)
    requires HasDependencies(s)
    ensures forall k :: 0 <= k < |s| ==> AfterDependencies(s, k)
  {
    assert AfterDependencies(s, 0) && AfterDependencies(s, 4);
    hide AfterDependencies;
    AfterOne(s, 1, 0);
    AfterOne(s, 2, 1);
    AfterOne(s, 3, 2);
    AfterOne(s, 5, 4);
    AfterOne(s, 6, 5);
    AfterTwo(s, 7, 3, 6);
    AfterTwo(s, 8, 2, 6);
    AfterTwo(s, 9, 7, 8);
  }

  lemma EarlyIsOrdered()
    ensures Ordered(EarlyPlan())
  {
    hide AfterDependencies, ById, UniqueIds, IsLinearExtension, HasActions, HasDependencies, EarlySteps;
    EarlyFacts();
    EarlyIsUnique();
    EarlyIsInOrder(EarlySteps());
    AuthoredInOrder(EarlySteps());
  }

  lemma ReleaseComesFirst(c: Compiled)
    requires UniqueIds(c.ordered) && HasActions(c.ordered, A(), B())
    ensures !AwaitsFirst(c, Ids(c.ordered))
  {
    hide UniqueIds;
    UniqueMeansDistinct(c.ordered);
    assert AwaitAndRelease(c, 6, 3);
    NotBefore(Ids(c.ordered), 6, 3);
  }

  lemma NotBefore(o: seq<string>, later: nat, earlier: nat)
    requires Distinct(o) && earlier < later < |o|
    ensures !Before(o, o[later], o[earlier])
  {}

  lemma EarlyPublishes()
    ensures EarlySteps()[1].id == "b" && EarlySteps()[1].action == Publish("x", "payments", 0, "order")
    ensures EarlySteps()[5].id == "f" && EarlySteps()[5].action == Publish("y", "inventory", 0, "order")
  {}

  lemma EarlyTuples()
    requires HasRecord(EarlyPlan(), A(), B())
    ensures HasTuples(EarlyPlan(), A(), B())
  {
    hide HasRecord, EarlySteps;
    EarlyPublishes();
    assert "b" != "f" && "payments" != "inventory";
  }

  lemma EarlySlugs()
    ensures forall i :: 0 <= i < |EarlySteps()| ==> Slug(EarlySteps()[i].id)
  {}

  lemma EarlyTopics()
    ensures SimpleTopic("payments") && SimpleTopic("inventory")
  {}

  lemma EarlySingles()
    ensures EarlySteps()[2].timeout == EarlySteps()[6].timeout == 1 && EarlySteps()[9].action == Observe("orders")
  {}

  lemma EarlySinglesAreAllowed()
    ensures var c := EarlyPlan();
            Allowed(c, EarlySteps()[1]) && Allowed(c, EarlySteps()[5]) && Allowed(c, EarlySteps()[9])
  {
    hide EarlySteps, EarlyAncestors, SimpleTopic;
    EarlyTopics();
    EarlyPublishes();
    EarlySingles();
  }

  lemma EarlyIsAllowed()
    ensures AllAllowed(EarlyPlan())
  {
    hide EarlySteps, EarlyAncestors, Allowed, AllAllowed, HasActions;
    EarlySinglesAreAllowed();
    EarlySingles();
    EarlyActions();
    ActionsAreAllowed(EarlyPlan(), A(), B());
  }

  lemma ActionsAreAllowed(c: Compiled, a: Selector, b: Selector)
    requires HasActions(c.ordered, a, b)
    requires a.name == b.name == CHECKPOINT && a.service == b.service == SERVICE && a.occurrence == b.occurrence == 1
    requires 0 < c.ordered[2].timeout <= MAX_DWELL && 0 < c.ordered[6].timeout <= MAX_DWELL
    requires Allowed(c, c.ordered[1]) && Allowed(c, c.ordered[5]) && Allowed(c, c.ordered[9])
    ensures AllAllowed(c)
  {
    hide SimpleTopic;
  }

  lemma EarlyIsAscending()
    ensures Ascending(Ids(EarlySteps()))
  {
    var s := EarlySteps();
    forall i, j | 0 <= i < j < 10
      ensures Leq(Ids(s)[i], Ids(s)[j])
    {
      assert s[i].id[0] < s[j].id[0];
    }
  }

  /** It is the order in which the engine runs the steps. */
  lemma EarlyIsGreedy()
    ensures Greedy(Steps(EarlyPlan()), Ids(EarlySteps()))
  {
    hide EarlySteps, Ascending, Greedy, IsLinearExtension, UniqueIds;
    EarlyIsOrdered();
    EarlyIsAscending();
    AscendingIsGreedy(Steps(EarlyPlan()), Ids(EarlySteps()));
  }

  lemma EarlyActions()
    ensures EarlyPlan().ordered == EarlySteps() && EarlyPlan().mode.CrossStream?
    ensures HasActions(EarlySteps(), A(), B()) && HasDependencies(EarlySteps())
    ensures EarlySteps()[3].action == ReleaseCheckpoint(A()) && EarlySteps()[6].action == AwaitCheckpoint(B())
  {
    EarlyFacts();
  }

  /* ---------- the validator takes it too ---------- */

  /** The plan as the validator sees it, with its ancestor sets, the event ids of the two publications and the probe
      that controlled runs ask for. */
  ghost function Validated(): Plan
  {
    Plan(EarlySteps(), EarlyAncestors(), map["x" := "paid", "y" := "packed"],
         map[SERVICE := Probe(true, [CHECKPOINT], "manual_sync", 2)])
  }

  /** What the ancestor sets hold, by position. */
  ghost predicate HasLifecycle(p: Plan, arm: nat, publish: nat, await: nat, release: nat)
    requires arm < |p.steps| && publish < |p.steps| && await < |p.steps| && release < |p.steps|
  {
    var s := p.steps;
    && s[arm].id in AncestorsOf(p, s[publish].id) && s[arm].id in AncestorsOf(p, s[await].id)
    && s[arm].id in AncestorsOf(p, s[release].id) && s[publish].id in AncestorsOf(p, s[await].id)
    && s[await].id in AncestorsOf(p, s[release].id)
  }

  lemma EarlyLifecycles(c: Compiled, p: Plan)
    requires Ordered(c) && HasDependencies(c.ordered) && p.steps == c.ordered && p.ancestors == c.ancestors
    ensures HasLifecycle(p, 0, 1, 2, 3) && HasLifecycle(p, 0, 1, 2, 7) && HasLifecycle(p, 4, 5, 6, 8)
  {
    hide Ordered, ById, UniqueIds;
    var s := c.ordered;
    UniqueIdsOf(c);
    UniqueById(s);
    DependencyIsAncestor(c, 1, s[0].id);
    DependencyIsAncestor(c, 2, s[1].id);
    AncestorOfDependency(c, s[0].id, 2, s[1].id);
    DependencyIsAncestor(c, 3, s[2].id);
    AncestorOfDependency(c, s[0].id, 3, s[2].id);
    AncestorOfDependency(c, s[0].id, 7, s[3].id);
    AncestorOfDependency(c, s[2].id, 7, s[3].id);
    DependencyIsAncestor(c, 5, s[4].id);
    DependencyIsAncestor(c, 6, s[5].id);
    AncestorOfDependency(c, s[4].id, 6, s[5].id);
    DependencyIsAncestor(c, 8, s[6].id);
    AncestorOfDependency(c, s[4].id, 8, s[6].id);
  }

  lemma AncestorHasAction(p: Plan, i: nat, j: nat)
    requires UniqueIds(p.steps) && i < |p.steps| && j < |p.steps| && p.steps[i].id in AncestorsOf(p, p.steps[j].id)
    ensures HasAncestor(p, p.steps[j].id, p.steps[i].action)
    ensures HasDescendant(p, p.steps[i].id, p.steps[j].action)
  {
    hide ById;
    UniqueById(p.steps);
  }

  lemma NoSelfAncestor(p: Plan, i: nat)
    requires UniqueIds(p.steps) && i < |p.steps| && p.steps[i].id !in AncestorsOf(p, p.steps[i].id)
    requires forall j :: 0 <= j < |p.steps| && p.steps[j].action == p.steps[i].action ==> j == i
    ensures !HasAncestor(p, p.steps[i].id, p.steps[i].action)
  {
    hide ById;
    UniqueById(p.steps);
  }

  predicate Declares(p: Plan, x: Selector)
  {
    ProbeOf(p, x.service).enabled && x.name in ProbeOf(p, x.service).checkpoints && !NeedsManualCommit(x.name)
  }

  /** The rules hold at an arm with a whole lifecycle whose tuple is awaited by one step only. */
  lemma ArmIsAccepted(p: Plan, arm: nat, publish: nat, await: nat, release: nat, rule: Rule)
    requires UniqueIds(p.steps) && arm < |p.steps| && publish < |p.steps| && await < |p.steps| && release < |p.steps|
    requires HasLifecycle(p, arm, publish, await, release) && p.steps[arm].action.ArmCheckpoint?
    requires var s, x := p.steps, p.steps[arm].action.selector;
             && s[await].action == AwaitCheckpoint(x) && s[release].action == ReleaseCheckpoint(x)
             && s[publish].id == x.stepId && s[publish].action.Publish?
             && s[publish].action.event in p.events && p.events[s[publish].action.event] == x.eventId
             && (forall j :: 0 <= j < |s| && s[j].action == s[await].action ==> j == await)
             && (forall j :: 0 <= j < |s| && s[j].action == s[arm].action ==> j == arm)
    requires p.steps[arm].id !in AncestorsOf(p, p.steps[arm].id)
    requires forall i :: 0 <= i < |p.steps| ==> p.steps[i].id != ""
    requires Declares(p, p.steps[arm].action.selector)
    ensures !Breaks(p, arm, rule)
  {
    hide ById, UniqueIds;
    var s, x := p.steps, p.steps[arm].action.selector;
    NoSelfAncestor(p, arm);
    assert AwaitsAfter(p, s[arm].id, x, s[await]);
    assert AwaitOf(p, s[arm]) == s[await].id;
    assert PublishesBetween(p, s[arm].id, s[await].id, x, s[publish]);
    AncestorHasAction(p, await, release);
    hide HasAncestor, HasDescendant, MatchingAwait;
  }

  lemma ReleaseIsAccepted(p: Plan, arm: nat, publish: nat, await: nat, release: nat, rule: Rule)
    requires UniqueIds(p.steps) && arm < |p.steps| && publish < |p.steps| && await < |p.steps| && release < |p.steps|
    requires HasLifecycle(p, arm, publish, await, release) && p.steps[release].action.ReleaseCheckpoint?
    requires p.steps[arm].action == ArmCheckpoint(p.steps[release].action.selector)
    requires p.steps[await].action == AwaitCheckpoint(p.steps[release].action.selector)
    ensures !Breaks(p, release, rule)
  {
    AncestorHasAction(p, arm, release);
    AncestorHasAction(p, await, release);
    hide HasAncestor, HasDescendant, MatchingAwait, UniqueIds;
  }

  ghost predicate AcceptedAt(p: Plan, i: nat)
    requires i < |p.steps|
  {
    forall rule :: !Breaks(p, i, rule)
  }

  /** What makes the rules hold at the arms and releases. */
  ghost predicate Acceptable(p: Plan, a: Selector, b: Selector)
  {
    && UniqueIds(p.steps) && HasActions(p.steps, a, b) && Matched(p, a, b) && Grounded(p)
    && HasLifecycle(p, 0, 1, 2, 3) && HasLifecycle(p, 0, 1, 2, 7) && HasLifecycle(p, 4, 5, 6, 8)
    && Declares(p, a) && Declares(p, b)
  }

  lemma FirstArmIsAccepted(p: Plan, a: Selector, b: Selector)
    requires Acceptable(p, a, b)
    ensures AcceptedAt(p, 0)
  {
    hide UniqueIds, HasLifecycle, Breaks, AncestorsOf, Declares;
    forall rule
      ensures !Breaks(p, 0, rule)
    {
      ArmIsAccepted(p, 0, 1, 2, 3, rule);
    }
  }

  lemma SecondArmIsAccepted(p: Plan, a: Selector, b: Selector)
    requires Acceptable(p, a, b)
    ensures AcceptedAt(p, 4)
  {
    hide UniqueIds, HasLifecycle, Breaks, AncestorsOf, Declares;
    forall rule
      ensures !Breaks(p, 4, rule)
    {
      ArmIsAccepted(p, 4, 5, 6, 8, rule);
    }
  }

  lemma ReleasesAreAccepted(p: Plan, a: Selector, b: Selector)
    requires Acceptable(p, a, b)
    ensures AcceptedAt(p, 3) && AcceptedAt(p, 7) && AcceptedAt(p, 8)
  {
    hide UniqueIds, HasLifecycle, Breaks, AncestorsOf, Declares;
    forall rule
      ensures !Breaks(p, 3, rule) && !Breaks(p, 7, rule) && !Breaks(p, 8, rule)
    {
      ReleaseIsAccepted(p, 0, 1, 2, 3, rule);
      ReleaseIsAccepted(p, 0, 1, 2, 7, rule);
      ReleaseIsAccepted(p, 4, 5, 6, 8, rule);
    }
  }

  lemma OthersAreAccepted(p: Plan, a: Selector, b: Selector, i: nat)
    requires HasActions(p.steps, a, b) && i in {1, 2, 5, 6, 9}
    ensures AcceptedAt(p, i)
  {
    hide Breaks;
    forall rule
      ensures !Breaks(p, i, rule)
    {
      OtherStepIsAccepted(p, i, rule);
    }
  }

  lemma AcceptableSteps(p: Plan, a: Selector, b: Selector)
    requires Acceptable(p, a, b)
    ensures |p.steps| == 10 && HasActions(p.steps, a, b)
  {}

  lemma EarlyIsAccepted(p: Plan, a: Selector, b: Selector)
    requires Acceptable(p, a, b)
    ensures Accepted(p)
  {
    hide *;
    AcceptableSteps(p, a, b);
    FirstArmIsAccepted(p, a, b);
    OthersAreAccepted(p, a, b, 1);
    OthersAreAccepted(p, a, b, 2);
    SecondArmIsAccepted(p, a, b);
    OthersAreAccepted(p, a, b, 5);
    OthersAreAccepted(p, a, b, 6);
    ReleasesAreAccepted(p, a, b);
    OthersAreAccepted(p, a, b, 9);
    AcceptedEverywhere(p);
  }

  lemma AcceptedEverywhere(p: Plan)
    requires forall i :: 0 <= i < |p.steps| ==> AcceptedAt(p, i)
    ensures Accepted(p)
  {
    hide Breaks;
    forall i, rule | 0 <= i < |p.steps|
      ensures !Breaks(p, i, rule)
    {
      assert AcceptedAt(p, i);
    }
  }

  lemma OtherStepIsAccepted(p: Plan, i: nat, rule: Rule)
    requires i < |p.steps|
    requires !p.steps[i].action.ArmCheckpoint? && !p.steps[i].action.ReleaseCheckpoint? && !p.steps[i].action.RewindOffset?
    ensures !Breaks(p, i, rule)
  {}

  lemma NoStepIsItsAncestor(c: Compiled, i: nat)
    requires Ordered(c) && i < |c.ordered|
    ensures c.ordered[i].id in c.ancestors && c.ordered[i].id !in c.ancestors[c.ordered[i].id]
  {
    hide Ancestor, ById;
    UniqueById(c.ordered);
    LinearExtensionMeansAcyclic(Steps(c), Ids(c.ordered));
  }

  lemma EarlyIdsAreNonempty(i: nat)
    requires i < 10
    ensures EarlySteps()[i].id != ""
  {}

  lemma EarlyDeclares()
    ensures Declares(Validated(), A()) && Declares(Validated(), B())
  {
    hide EarlySteps, EarlyAncestors;
    assert CHECKPOINT != "before_offset_commit" && CHECKPOINT != "after_offset_commit" by {
      assert |CHECKPOINT| == 14;
    }
  }

  /** The publications are those of the tuples. */
  ghost predicate Matched(p: Plan, a: Selector, b: Selector)
  {
    && |p.steps| == 10 && a != b
    && p.steps[1].id == a.stepId && p.steps[1].action.Publish? && p.steps[1].action.event in p.events
    && p.events[p.steps[1].action.event] == a.eventId
    && p.steps[5].id == b.stepId && p.steps[5].action.Publish? && p.steps[5].action.event in p.events
    && p.events[p.steps[5].action.event] == b.eventId
  }

  lemma EarlyIsMatched()
    ensures Matched(Validated(), A(), B())
  {
    hide EarlySteps, EarlyAncestors;
    EarlyPublishes();
    TuplesDiffer();
  }

  /** No step has an empty id or is its own ancestor. */
  ghost predicate Grounded(p: Plan)
  {
    forall i :: 0 <= i < |p.steps| ==> p.steps[i].id !in AncestorsOf(p, p.steps[i].id) && p.steps[i].id != ""
  }

  lemma EarlyIsGrounded()
    ensures Grounded(Validated())
  {
    hide EarlySteps, Ordered, UniqueIds, EarlyAncestors, Steps;
    EarlyIsOrdered();
    var c, p := EarlyPlan(), Validated();
    forall i | 0 <= i < |p.steps|
      ensures p.steps[i].id !in AncestorsOf(p, p.steps[i].id) && p.steps[i].id != ""
    {
      NoStepIsItsAncestor(c, i);
      EarlyIdsAreNonempty(i);
    }
  }

  lemma ValidatedIsAccepted()
    ensures Accepted(Validated())
  {
    EarlyActions();
    EarlyIsOrdered();
    EarlyIsUnique();
    EarlyIsMatched();
    EarlyIsGrounded();
    EarlyDeclares();
    hide EarlySteps, Ordered, UniqueIds, HasDependencies, HasActions, EarlyAncestors, HasLifecycle, Accepted, Steps, Declares,
         AncestorsOf, Matched, Grounded;
    EarlyLifecycles(EarlyPlan(), Validated());
    EarlyIsAccepted(Validated(), A(), B());
  }

  lemma TuplesDiffer()
    ensures A() != B()
  {
    assert "b" != "f";
  }

  /** The validator accepts the plan and the engine takes it, yet the order in which the engine runs it releases the
      first handler (step d) before it waits for the second (step g). */
  lemma AcceptedPlanMayReleaseEarly()
    ensures Accepted(Validated()) && Validated().steps == EarlyPlan().ordered && Validated().ancestors == EarlyPlan().ancestors
    ensures forall i :: 0 <= i < |EarlyPlan().ordered| ==> Slug(EarlyPlan().ordered[i].id)
    ensures var c := EarlyPlan();
            && Ordered(c) && Greedy(Steps(c), Ids(c.ordered)) && WellShaped(c) && c.mode.CrossStream?
            && c.ordered[3].action == ReleaseCheckpoint(A()) && c.ordered[6].action == AwaitCheckpoint(B())
            && !AwaitsFirst(c, Ids(c.ordered))
  {
    hide *;
    ValidatedIsAccepted();
    EarlyIsTaken();
    EarlyIsGreedy();
    EarlySlugs();
    EarlyViews();
  }

  lemma EarlyViews()
    ensures EarlyPlan().ordered == EarlySteps() == Validated().steps && Validated().ancestors == EarlyPlan().ancestors
  {
    hide EarlySteps, EarlyAncestors;
  }

  lemma EarlyIsTaken()
    ensures var c := EarlyPlan();
            && Ordered(c) && WellShaped(c) && c.mode.CrossStream?
            && c.ordered[3].action == ReleaseCheckpoint(A()) && c.ordered[6].action == AwaitCheckpoint(B())
            && !AwaitsFirst(c, Ids(c.ordered))
  {
    hide *;
    EarlyActions();
    EarlyIsOrdered();
    EarlyIsUnique();
    EarlyChain(EarlyPlan());
    EarlyHasRecord(EarlyPlan(), A(), B());
    EarlyTuples();
    EarlyIsAllowed();
    RecordIsWellShaped(EarlyPlan(), A(), B());
    ReleaseComesFirst(EarlyPlan());
  }
}
