/** Whether a rewound service is really down: what the rewind rules alone do not promise. */
module RewindSafety {
  import opened Ancestors
  import opened Cardinality
  import opened FaultOrdering
  import opened LinearExtensions
  import opened Scenario
  import opened StepGraph
  import opened Text

  /** Whether the last stop or restart of the service is a stop. */
  ghost predicate Down(p: Plan, service: string, run: seq<string>)
  {
    if run == [] then false
    else
      var last := run[|run| - 1];
      if last in ActionIds(p, Stop(service)) then true
      else if last in ActionIds(p, Restart(service)) then false
      else Down(p, service, run[..|run| - 1])
  }

  ghost predicate StopAfter(p: Plan, service: string, run: seq<string>, from: nat)
  {
    exists i :: from <= i < |run| && run[i] in ActionIds(p, Stop(service))
  }

  /** A service that is up was never stopped, or was restarted with no stop since. */
  lemma {:induction false} UpMeans(p: Plan, service: string, run: seq<string>) returns (j: int)
    requires !Down(p, service, run)
    ensures j == -1 || (0 <= j < |run| && run[j] in ActionIds(p, Restart(service)))
    ensures !StopAfter(p, service, run, j + 1)
  {
    if run == [] {
      j := -1;
    } else {
      var last := |run| - 1;
      if run[last] in ActionIds(p, Restart(service)) {
        j := last;
      } else {
        j := UpMeans(p, service, run[..last]);
        forall i | j + 1 <= i < |run|
          ensures run[i] !in ActionIds(p, Stop(service))
        {
          if i < last { assert run[..last][i] == run[i]; }
        }
      }
    }
  }

  /** A restart with no stop since, or no stop at all, leaves the service up. */
  lemma {:induction false} UpAfter(p: Plan, service: string, run: seq<string>, j: int)
    requires j == -1 || (0 <= j < |run| && run[j] in ActionIds(p, Restart(service)))
    requires !StopAfter(p, service, run, j + 1)
    ensures !Down(p, service, run)
  {
    if run != [] {
      var last := |run| - 1;
      if j < last {
        assert run[last] !in ActionIds(p, Stop(service));
        forall i | j + 1 <= i < last
          ensures run[..last][i] !in ActionIds(p, Stop(service))
        {
          assert run[..last][i] == run[i];
        }
        UpAfter(p, service, run[..last], j);
      }
    }
  }

  /** The service is down whenever the step runs, in every linear extension. */
  ghost predicate AlwaysDown(p: Plan, service: string, id: string)
  {
    forall o, k :: IsLinearExtension(StepGraphOf(p), o) && 0 <= k < |o| && o[k] == id ==> Down(p, service, o[..k])
  }

  /** Every restart of the service needs the step, or is followed by a stop that the step needs. */
  ghost predicate RestartsAreOrdered(p: Plan, service: string, id: string)
  {
    forall r :: r in ActionIds(p, Restart(service)) ==>
      Ancestor(StepGraphOf(p), id, r) || StopBetween(p, service, r, id)
  }

  ghost predicate StopBetween(p: Plan, service: string, r: string, id: string)
  {
    exists s :: s in ActionIds(p, Stop(service)) && Ancestor(StepGraphOf(p), r, s) && Ancestor(StepGraphOf(p), s, id)
  }

  ghost predicate StopNeeded(p: Plan, service: string, id: string)
  {
    exists s :: s in ActionIds(p, Stop(service)) && Ancestor(StepGraphOf(p), s, id)
  }

  lemma EarlierAt(g: Graph, o: seq<string>, k: nat, a: string) returns (i: nat)
    requires IsLinearExtension(g, o) && k < |o| && Ancestor(g, a, o[k])
    ensures i < k && o[i] == o[..k][i] == a
  {
    AncestorsComeEarlier(g, o, k, a);
    i :| 0 <= i < k && o[i] == a;
  }

  lemma OrderedMeansDown(p: Plan, service: string, o: seq<string>, k: nat)
    requires IsLinearExtension(StepGraphOf(p), o) && k < |o|
    requires StopNeeded(p, service, o[k]) && RestartsAreOrdered(p, service, o[k])
    ensures Down(p, service, o[..k])
  {
    hide IsLinearExtension, Ancestor, ActionIds, Down, StepGraphOf;
    var g, run := StepGraphOf(p), o[..k];
    if !Down(p, service, run) {
      var j := UpMeans(p, service, run);
      if j == -1 {
        var s :| s in ActionIds(p, Stop(service)) && Ancestor(g, s, o[k]);
        var i := EarlierAt(g, o, k, s);
      } else if Ancestor(g, o[k], o[j]) {
        LaterIsNoAncestor(g, o, j, k);
      } else {
        assert StopBetween(p, service, o[j], o[k]);
        var s :| s in ActionIds(p, Stop(service)) && Ancestor(g, o[j], s) && Ancestor(g, s, o[k]);
        var i := EarlierAt(g, o, k, s);
        var h := EarlierAt(g, o, i, o[j]);
        SameIndex(g, o, h, j);
      }
    }
  }

  lemma SameIndex(g: Graph, o: seq<string>, i: nat, j: nat)
    requires IsLinearExtension(g, o) && i < |o| && j < |o| && o[i] == o[j]
    ensures i == j
  {}

  lemma LaterIsNoAncestor(g: Graph, o: seq<string>, j: nat, k: nat)
    requires IsLinearExtension(g, o) && j <= k < |o|
    ensures !Ancestor(g, o[k], o[j])
  {
    if Ancestor(g, o[k], o[j]) {
      var i := EarlierAt(g, o, j, o[k]);
      SameIndex(g, o, i, k);
    }
  }

  /* ---------- the converse: a run in which the service is up ---------- */

  /** The rank that lets only steps between r and w run between them. */
  ghost function Between(g: Graph, r: string, w: string): Rank
  {
    map id | id in g ::
      if id == r then 1
      else if id == w then 3
      else if Ancestor(g, r, id) && Ancestor(g, id, w) then 2
      else if Ancestor(g, r, id) || Ancestor(g, w, id) then 4
      else 0
  }

  lemma BetweenIsMonotone(g: Graph, r: string, w: string)
    requires Acyclic(g) && r in g && w in g && r != w && !Ancestor(g, w, r)
    ensures Monotone(g, Between(g, r, w))
  {
    hide Acyclic, Ancestor;
    forall id, d | id in g && d in g[id] && d in g
      ensures Between(g, r, w)[d] <= Between(g, r, w)[id]
    {
      BetweenEdge(g, r, w, id, d);
    }
  }

  lemma BetweenEdge(g: Graph, r: string, w: string, id: string, d: string)
    requires Acyclic(g) && r in g && w in g && r != w && !Ancestor(g, w, r)
    requires id in g && d in g[id] && d in g
    ensures Between(g, r, w)[d] <= Between(g, r, w)[id]
  {
    assert !Ancestor(g, r, r) && !Ancestor(g, w, w);
    hide Ancestor, Acyclic;
    AncestorByEdge(g, id, d);
    if Ancestor(g, r, d) { AncestorTransitive(g, r, d, id); }
    if Ancestor(g, w, d) {
      AncestorTransitive(g, w, d, id);
      if Ancestor(g, id, w) { AncestorTransitive(g, w, id, w); }
    }
    if Ancestor(g, id, w) { AncestorTransitive(g, d, id, w); }
  }

  /** What runs between r and w in the regrouped order needs r and is needed by w. */
  lemma RunsBetween(g: Graph, order: seq<string>, r: string, w: string, j: nat, i: nat, k: nat)
    requires r in g && w in g && r != w && Distinct(Regroup(order, Between(g, r, w), 5))
    requires j < i < k < |Regroup(order, Between(g, r, w), 5)|
    requires Regroup(order, Between(g, r, w), 5)[j] == r && Regroup(order, Between(g, r, w), 5)[k] == w
    ensures var x := Regroup(order, Between(g, r, w), 5)[i]; Ancestor(g, r, x) && Ancestor(g, x, w)
  {
    hide Ancestor, Regroup;
    RegroupIsRanked(order, Between(g, r, w), 5, j, i);
    RegroupIsRanked(order, Between(g, r, w), 5, i, k);
  }

  lemma StartBeforeEnd(g: Graph, order: seq<string>, r: string, w: string, j: nat, k: nat)
    requires r in g && w in g && r != w
    requires j < |Regroup(order, Between(g, r, w), 5)| && k < |Regroup(order, Between(g, r, w), 5)|
    requires Regroup(order, Between(g, r, w), 5)[j] == r && Regroup(order, Between(g, r, w), 5)[k] == w
    ensures j < k
  {
    hide Ancestor, Regroup;
    if k < j { RegroupIsRanked(order, Between(g, r, w), 5, k, j); }
  }

  /** A run in which a restart comes before the step with no stop between them. */
  lemma RestartedRun(p: Plan, service: string, order: seq<string>, r: string, w: string) returns (o: seq<string>, k: nat)
    requires IsLinearExtension(StepGraphOf(p), order) && w in StepGraphOf(p) && w !in ActionIds(p, Restart(service))
    requires r in StepGraphOf(p) && r in ActionIds(p, Restart(service))
    requires !Ancestor(StepGraphOf(p), w, r) && !StopBetween(p, service, r, w)
    ensures IsLinearExtension(StepGraphOf(p), o) && k < |o| && o[k] == w && !Down(p, service, o[..k])
  {
    hide *;
    var g := StepGraphOf(p);
    LinearExtensionMeansAcyclic(g, order);
    BetweenIsMonotone(g, r, w);
    var rank := Between(g, r, w);
    RankBelow(g, r, w);
    o := Regroup(order, rank, 5);
    RegroupIsLinearExtension(g, order, rank, 5);
    ExtensionIsDistinct(g, o);
    var j := PositionIn(g, o, r);
    k := PositionIn(g, o, w);
    StartBeforeEnd(g, order, r, w, j, k);
    forall i | j + 1 <= i < k
      ensures o[i] !in ActionIds(p, Stop(service))
    {
      RunsBetween(g, order, r, w, j, i, k);
      NotBetween(p, service, r, w, o[i]);
    }
    UpAt(p, service, o, j, k);
  }

  lemma RankBelow(g: Graph, r: string, w: string)
    ensures forall id :: id in Between(g, r, w) ==> Between(g, r, w)[id] < 5
  {}

  lemma ExtensionIsDistinct(g: Graph, o: seq<string>)
    requires IsLinearExtension(g, o)
    ensures Distinct(o)
  {}

  lemma PositionIn(g: Graph, o: seq<string>, id: string) returns (k: nat)
    requires IsLinearExtension(g, o) && id in g
    ensures k < |o| && o[k] == id
  {
    assert id in Elements(o);
    k :| 0 <= k < |o| && o[k] == id;
  }

  lemma NotBetween(p: Plan, service: string, r: string, w: string, x: string)
    requires !StopBetween(p, service, r, w) && Ancestor(StepGraphOf(p), r, x) && Ancestor(StepGraphOf(p), x, w)
    ensures x !in ActionIds(p, Stop(service))
  {}

  lemma UpAt(p: Plan, service: string, o: seq<string>, j: int, k: nat)
    requires k <= |o| && (j == -1 || (0 <= j < k && o[j] in ActionIds(p, Restart(service))))
    requires forall i :: j + 1 <= i < k ==> o[i] !in ActionIds(p, Stop(service))
    ensures !Down(p, service, o[..k])
  {
    hide Down, ActionIds;
    UpAfter(p, service, o[..k], j);
  }

  lemma StoplessRun(p: Plan, service: string, order: seq<string>, w: string) returns (o: seq<string>, k: nat)
    requires IsLinearExtension(StepGraphOf(p), order) && w in ById(p.steps)
    requires !StopNeeded(p, service, w)
    ensures IsLinearExtension(StepGraphOf(p), o) && k < |o| && o[k] == w && !Down(p, service, o[..k])
  {
    hide Ancestor, Down, ById;
    var g := StepGraphOf(p);
    o := PullForward(g, order, w);
    k := PositionIn(g, o, w);
    forall i | 0 <= i < k
      ensures o[i] !in ActionIds(p, Stop(service))
    {
      assert o[i] in Elements(o);
      assert Before(o, o[i], w);
    }
    UpAt(p, service, o, -1, k);
  }

  /** The service is down at the rewind in every run exactly when the rewind needs a stop and every restart
      of the service is ordered against it: the rules enforce the first half only. */
  lemma DownExactlyWhenRestartsAreOrdered(p: Plan, order: seq<string>, i: nat)
    requires Prepared(p) && IsLinearExtension(StepGraphOf(p), order)
    requires i < |p.steps| && p.steps[i].action.RewindOffset?
    ensures var w, service := p.steps[i].id, p.steps[i].action.service;
            AlwaysDown(p, service, w) <==> !Breaks(p, i, RewindBeforeStop) && RestartsAreOrdered(p, service, w)
  {
    hide IsLinearExtension, Ancestor, Down, ById;
    var w, service := p.steps[i].id, p.steps[i].action.service;
    StepIsById(p, i);
    HasAncestorMeans(p, w, Stop(service));
    assert !Breaks(p, i, RewindBeforeStop) <==> StopNeeded(p, service, w);
    if !StopNeeded(p, service, w) {
      var o, k := StoplessRun(p, service, order, w);
    } else if !RestartsAreOrdered(p, service, w) {
      var r :| r in ActionIds(p, Restart(service)) && !Ancestor(StepGraphOf(p), w, r) && !StopBetween(p, service, r, w);
      var o, k := RestartedRun(p, service, order, r, w);
    } else {
      forall o, k | IsLinearExtension(StepGraphOf(p), o) && 0 <= k < |o| && o[k] == w
        ensures Down(p, service, o[..k])
      {
        OrderedMeansDown(p, service, o, k);
      }
    }
  }

  /* ---------- an accepted plan with an unsafe order ---------- */

  function UnorderedRestart(): Plan
  {
    Plan(
      [
        Step("down", false, [], 0, Stop("a")),
        Step("early", false, ["down"], 0, Restart("a")),
        Step("rewind", false, ["down"], 0, RewindOffset("a", "g", "t", 0, 0)),
        Step("up", false, ["rewind"], 0, Restart("a"))
      ],
      map["down" := {}, "early" := {"down"}, "rewind" := {"down"}, "up" := {"rewind", "down"}],
      map[],
      map[])
  }

  lemma UnorderedRestartSteps()
    ensures var p := UnorderedRestart();
            && ById(p.steps) == map["down" := p.steps[0], "early" := p.steps[1], "rewind" := p.steps[2], "up" := p.steps[3]]
            && UniqueIds(p.steps)
  {
    var steps := UnorderedRestart().steps;
    assert UniqueIds(steps) by {
      assert Ids(steps) == ["down", "early", "rewind", "up"];
    }
    FourSteps(steps);
  }

  lemma FourSteps(steps: seq<Step>)
    requires |steps| == 4 && UniqueIds(steps)
    ensures ById(steps) == map[steps[0].id := steps[0], steps[1].id := steps[1], steps[2].id := steps[2], steps[3].id := steps[3]]
  {
    hide ById, Distinct;
    forall i | 0 <= i < 4
      ensures steps[i].id in ById(steps) && ById(steps)[steps[i].id] == steps[i]
    {
      ByIdUnique(steps, i);
    }
  }

  function RestartGraph(): Graph { map["down" := {}, "early" := {"down"}, "rewind" := {"down"}, "up" := {"rewind"}] }

  lemma UnorderedRestartGraph()
    ensures StepGraphOf(UnorderedRestart()) == RestartGraph()
  {
    UnorderedRestartSteps();
    hide ById;
    var p := UnorderedRestart();
    var g := StepGraphOf(p);
    assert g["down"] == {} && g["early"] == {"down"} && g["rewind"] == {"down"} && g["up"] == {"rewind"};
  }

  /** The ancestor sets, gathered step by step. */
  lemma RestartAncestors()
    ensures MemoInv(RestartGraph(), UnorderedRestart().ancestors)
  {
    var g := RestartGraph();
    Remember(g, map[], "down", {});
    var one: Ancestry := map["down" := {}];
    Remember(g, one, "early", {"down"});
    var two := one["early" := {"down"}];
    Remember(g, two, "rewind", {"down"});
    var three := two["rewind" := {"down"}];
    Remember(g, three, "up", {"rewind", "down"});
    assert three["up" := {"rewind", "down"}] == UnorderedRestart().ancestors;
  }

  lemma UnorderedRestartIsPrepared()
    ensures Prepared(UnorderedRestart())
  {
    UnorderedRestartSteps();
    UnorderedRestartGraph();
    RestartAncestors();
    hide ById, KnownGraph, StepGraphOf, RestartGraph, IsAncestorSet;
  }

  lemma UnorderedRestartIsAccepted()
    ensures Accepted(UnorderedRestart())
  {
    hide ById;
    UnorderedRestartSteps();
    var p := UnorderedRestart();
    assert HasAncestor(p, "rewind", Stop("a")) by { assert "down" in AncestorsOf(p, "rewind"); }
    assert HasDescendant(p, "rewind", Restart("a")) by { assert "rewind" in AncestorsOf(p, p.steps[3].id); }
    forall i, rule | 0 <= i < |p.steps|
      ensures !Breaks(p, i, rule)
    {
      if i != 2 { assert !p.steps[i].action.RewindOffset?; }
    }
  }

  function RestartOrder(): seq<string> { ["down", "early", "rewind", "up"] }

  lemma RestartOrderExtends()
    ensures IsLinearExtension(RestartGraph(), RestartOrder())
  {
    var o := RestartOrder();
    assert "down" in o && "early" in o && "rewind" in o && "up" in o;
    assert o[..1] == ["down"] && o[..2] == ["down", "early"] && o[..3] == ["down", "early", "rewind"];
    assert "down" in o[..1] && "down" in o[..2] && "rewind" in o[..3] by { assert o[..2][0] == "down" && o[..3][2] == "rewind"; }
  }

  lemma RestartedBeforeRewind()
    ensures !Down(UnorderedRestart(), "a", RestartOrder()[..2])
  {
    UnorderedRestartSteps();
    var p := UnorderedRestart();
    hide ById;
    assert RestartOrder()[..2] == ["down", "early"];
    assert "early" in ActionIds(p, Restart("a")) && "early" !in ActionIds(p, Stop("a"));
  }

  lemma RestartSlugs()
    ensures forall i :: 0 <= i < |UnorderedRestart().steps| ==> Slug(UnorderedRestart().steps[i].id)
  {}

  /** The rules alone do not keep the service down: they accept a plan with a linear extension that rewinds a service
      that is up. */
  lemma AcceptedPlanHasUnsafeOrder()
    ensures var p, o := UnorderedRestart(), RestartOrder();
            && Prepared(p) && Accepted(p) && (forall i :: 0 <= i < |p.steps| ==> Slug(p.steps[i].id))
            && IsLinearExtension(StepGraphOf(p), o)
            && p.steps[2].action.RewindOffset? && p.steps[2].action.service == "a"
            && o[2] == p.steps[2].id && !Down(p, "a", o[..2])
  {
    UnorderedRestartIsPrepared();
    UnorderedRestartIsAccepted();
    UnorderedRestartGraph();
    RestartOrderExtends();
    RestartedBeforeRewind();
    RestartSlugs();
    hide ById, StepGraphOf, Prepared, Accepted, Slug, IsLinearExtension, Down, RestartGraph;
  }
}
