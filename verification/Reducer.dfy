/** The reducer's greedy loop: a cache, two budgets and a claim of minimality. */
module Reducer {
  import opened Cardinality
  import opened Proposals
  import opened Reduction
  import opened ReductionMeasure
  import opened Scenario
  import opened StepGraph

  datatype Outcome = Pass | SameFailure | Unresolved

  datatype Verdict = Verdict(outcome: Outcome, reason: string)

  datatype Deadline = Never | At(time: int)

  /** The budgets, the predicate asked in every trial, and the readings of the clock. */
  datatype Setting = Setting(maxTrials: int, deadline: Deadline, clock: nat -> int, oracle: (nat, Spec) -> Verdict)

  datatype Rejection = Rejection(transform: Transform, verdict: Verdict)

  /** The loop's variables; a scenario is its own cache key. */
  datatype State = State(current: Spec, cache: Cache, asked: seq<Spec>, hits: nat, accepted: seq<Transform>,
                         rejections: seq<Rejection>, unresolved: bool, readings: nat)

  datatype Ending = Accepted | Finished | Exhausted

  function Start(original: Spec): State { State(original, map[], [], 0, [], [], false, 0) }

  function CheckBudget(run: Setting, st: State): (bool, State)
  {
    if run.maxTrials > 0 && |st.asked| >= run.maxTrials then (true, st)
    else if run.deadline.Never? then (false, st)
    else (run.clock(st.readings) > run.deadline.time, st.(readings := st.readings + 1))
  }

  function Ask(run: Setting, st: State, x: Spec): (Verdict, State)
  {
    if x in st.cache then (st.cache[x], st.(hits := st.hits + 1))
    else
      var verdict := run.oracle(|st.asked|, x);
      (verdict, st.(cache := st.cache[x := verdict], asked := st.asked + [x]))
  }

  function Decide(st: State, p: Proposal, verdict: Verdict): State
  {
    if verdict.outcome.SameFailure? then st.(current := p.scenario, accepted := st.accepted + [p.transform])
    else
      st.(unresolved := st.unresolved || verdict.outcome.Unresolved?,
          rejections := st.rejections + [Rejection(p.transform, verdict)])
  }

  /** One pass over the proposals, up to the first that reproduces the failure. */
  function Scan(run: Setting, st: State, proposals: seq<Proposal>): (Ending, State)
    decreases |proposals|
  {
    if proposals == [] then (Finished, st)
    else
      var (spent, checked) := CheckBudget(run, st);
      if spent then (Exhausted, checked)
      else
        var (verdict, judged) := Ask(run, checked, proposals[0].scenario);
        var decided := Decide(judged, proposals[0], verdict);
        if verdict.outcome.SameFailure? then (Accepted, decided) else Scan(run, decided, proposals[1..])
  }

  ghost function Round(run: Setting, st: State): (Ending, State) { Scan(run, st, Hierarchical(st.current)) }

  /** The state after n accepting rounds. */
  ghost predicate Reaches(run: Setting, original: Spec, n: nat, st: State)
  {
    if n == 0 then st == Start(original)
    else exists before :: Reaches(run, original, n - 1, before) && Round(run, before) == (Accepted, st)
  }

  ghost predicate StopsAt(run: Setting, original: Spec, n: nat, ending: Ending, st: State)
  {
    !ending.Accepted? && exists before :: Reaches(run, original, n, before) && Round(run, before) == (ending, st)
  }

  datatype Status = Complete | BudgetExhausted

  datatype Summary = Summary(status: Status, proven: bool, originalEvents: nat, finalEvents: nat, originalActions: nat,
                             finalActions: nat, trials: nat, cacheHits: nat, accepted: seq<Transform>, rejections: seq<Rejection>)

  function SummaryOf(original: Spec, ending: Ending, st: State): Summary
  {
    Summary(
      if ending.Exhausted? then BudgetExhausted else Complete, !ending.Exhausted? && !st.unresolved,
      |original.events|, |st.current.events|, |original.steps|, |st.current.steps|,
      |st.asked|, st.hits, st.accepted, st.rejections)
  }

  /* ---------- invariants of every state ---------- */

  /** The cache holds exactly the verdicts of the trials, no scenario is asked twice, and the trial budget is kept. */
  ghost predicate CacheInv(run: Setting, st: State)
  {
    && Distinct(st.asked)
    && (forall x :: x in st.cache <==> x in st.asked)
    && (forall k :: 0 <= k < |st.asked| ==> st.cache[st.asked[k]] == run.oracle(k, st.asked[k]))
    && (run.maxTrials > 0 ==> |st.asked| <= run.maxTrials)
  }

  type Cache = map<Spec, Verdict>

  ghost predicate Judged(cache: Cache, x: Spec, outcome: Outcome)
  {
    x in cache && cache[x].outcome == outcome
  }

  ghost predicate UnresolvedInv(st: State)
  {
    st.unresolved <==> exists x :: Judged(st.cache, x, Unresolved)
  }

  ghost predicate Inv(run: Setting, original: Spec, st: State)
  {
    && CacheInv(run, st) && UnresolvedInv(st)
    && (st.current == original || Judged(st.cache, st.current, SameFailure))
  }

  lemma AskKeepsCache(run: Setting, st: State, x: Spec)
    requires CacheInv(run, st) && !CheckBudget(run, st).0
    ensures CacheInv(run, Ask(run, CheckBudget(run, st).1, x).1)
  {
    var checked := CheckBudget(run, st).1;
    assert checked.asked == st.asked && checked.cache == st.cache;
    assert CacheInv(run, checked) && (run.maxTrials > 0 ==> |checked.asked| < run.maxTrials);
    hide CheckBudget, CacheInv, Ask;
    TrialKeepsCache(run, checked, x);
  }

  lemma TrialKeepsCache(run: Setting, st: State, x: Spec)
    requires CacheInv(run, st) && (run.maxTrials > 0 ==> |st.asked| < run.maxTrials)
    ensures CacheInv(run, Ask(run, st, x).1)
  {
    if x !in st.cache {
      var next := Ask(run, st, x).1;
      assert forall k :: 0 <= k < |st.asked| ==> next.asked[k] == st.asked[k];
    }
  }

  /** One proposal tried: what the state becomes. */
  ghost function Tried(run: Setting, st: State, p: Proposal): State
  {
    var (verdict, judged) := Ask(run, CheckBudget(run, st).1, p.scenario);
    Decide(judged, p, verdict)
  }

  ghost function VerdictOf(run: Setting, st: State, p: Proposal): Verdict
  {
    Ask(run, CheckBudget(run, st).1, p.scenario).0
  }

  lemma TryKeepsInv(run: Setting, original: Spec, st: State, p: Proposal)
    requires Inv(run, original, st) && !CheckBudget(run, st).0
    ensures Inv(run, original, Tried(run, st, p))
    ensures Judged(Tried(run, st, p).cache, p.scenario, VerdictOf(run, st, p).outcome)
    ensures forall x, outcome :: Judged(st.cache, x, outcome) ==> Judged(Tried(run, st, p).cache, x, outcome)
  {
    AskKeepsCache(run, st, p.scenario);
    TriedCache(run, st, p);
    hide CacheInv;
    UnresolvedNext(st.cache, Tried(run, st, p).cache, p.scenario, VerdictOf(run, st, p));
  }

  lemma TriedCache(run: Setting, st: State, p: Proposal)
    ensures var next := Tried(run, st, p);
            && next.cache == (if p.scenario in st.cache then st.cache else st.cache[p.scenario := VerdictOf(run, st, p)])
            && (p.scenario in st.cache ==> VerdictOf(run, st, p) == st.cache[p.scenario])
            && next.unresolved == (st.unresolved || VerdictOf(run, st, p).outcome.Unresolved?)
            && next.current == (if VerdictOf(run, st, p).outcome.SameFailure? then p.scenario else st.current)
  {}

  lemma UnresolvedNext(before: Cache, after: Cache, x: Spec, verdict: Verdict)
    requires after == if x in before then before else before[x := verdict]
    requires x in before ==> verdict == before[x]
    ensures (exists y :: Judged(after, y, Unresolved)) <==> verdict.outcome.Unresolved? || exists y :: Judged(before, y, Unresolved)
  {
    if verdict.outcome.Unresolved? {
      assert Judged(after, x, Unresolved);
    }
    if y :| Judged(before, y, Unresolved) {
      assert Judged(after, y, Unresolved);
    }
    if y :| Judged(after, y, Unresolved) {
      assert y == x || Judged(before, y, Unresolved);
    }
  }

  /** A pass keeps the invariant; it accepts a proposal that was judged to fail the same way, or has seen every
      proposal judged otherwise, or runs out of budget. */
  lemma {:induction false} ScanKeepsInv(run: Setting, original: Spec, st: State, proposals: seq<Proposal>)
    requires Inv(run, original, st)
    ensures var (ending, next) := Scan(run, st, proposals);
            && Inv(run, original, next)
            && (forall x, outcome :: Judged(st.cache, x, outcome) ==> Judged(next.cache, x, outcome))
            && match ending
               case Accepted =>
                 Judged(next.cache, next.current, SameFailure) && exists p :: p in proposals && p.scenario == next.current
               case Finished => next.current == st.current && AllJudgedOtherwise(next.cache, proposals)
               case Exhausted => next.current == st.current
    decreases |proposals|
  {
    hide Inv, CheckBudget, Ask, Decide;
    if proposals != [] && !CheckBudget(run, st).0 {
      var p := proposals[0];
      var next := Tried(run, st, p);
      TryKeepsInv(run, original, st, p);
      TriedCache(run, st, p);
      if !VerdictOf(run, st, p).outcome.SameFailure? {
        ScanKeepsInv(run, original, next, proposals[1..]);
        assert proposals == [p] + proposals[1..];
      }
    } else if proposals != [] {
      BudgetKeepsInv(run, original, st);
    }
  }

  lemma BudgetKeepsInv(run: Setting, original: Spec, st: State)
    requires Inv(run, original, st)
    ensures Inv(run, original, CheckBudget(run, st).1)
    ensures CheckBudget(run, st).1.cache == st.cache && CheckBudget(run, st).1.current == st.current
  {}

  /* ---------- budgets and counts ---------- */

  /** The trials are used up, or the last reading of the clock was past the deadline. */
  ghost predicate Spent(run: Setting, st: State)
  {
    || (run.maxTrials > 0 && |st.asked| >= run.maxTrials)
    || (run.deadline.At? && st.readings > 0 && run.clock(st.readings - 1) > run.deadline.time)
  }

  /** Every proposal that was tried is either accepted or rejected, and either asked for or found in the cache; a
      rejection carries a verdict on some scenario that is not the same failure. */
  ghost predicate Counted(st: State)
  {
    && |st.accepted| + |st.rejections| == |st.asked| + st.hits
    && forall i :: 0 <= i < |st.rejections| ==> Rejected(st.cache, st.rejections[i].verdict)
  }

  ghost predicate Rejected(cache: Cache, verdict: Verdict)
  {
    !verdict.outcome.SameFailure? && exists x :: x in cache && cache[x] == verdict
  }

  lemma TryCounts(run: Setting, st: State, p: Proposal)
    requires Counted(st)
    ensures Counted(Tried(run, st, p))
    ensures |Tried(run, st, p).accepted| == |st.accepted| + if VerdictOf(run, st, p).outcome.SameFailure? then 1 else 0
  {
    var next, verdict := Tried(run, st, p), VerdictOf(run, st, p);
    TriedCache(run, st, p);
    assert next.cache[p.scenario] == verdict;
    forall v | Rejected(st.cache, v)
      ensures Rejected(next.cache, v)
    {
      var x :| x in st.cache && st.cache[x] == v;
      assert next.cache[x] == v;
    }
  }

  lemma {:induction false} ScanCounts(run: Setting, st: State, proposals: seq<Proposal>)
    requires Counted(st)
    ensures var (ending, next) := Scan(run, st, proposals);
            && Counted(next)
            && |next.accepted| == |st.accepted| + (if ending.Accepted? then 1 else 0)
            && (ending.Exhausted? ==> Spent(run, next))
    decreases |proposals|
  {
    hide Ask, Decide, Counted;
    if proposals != [] && !CheckBudget(run, st).0 {
      TryCounts(run, st, proposals[0]);
      if !VerdictOf(run, st, proposals[0]).outcome.SameFailure? {
        ScanCounts(run, Tried(run, st, proposals[0]), proposals[1..]);
      }
    } else {
      assert Counted(CheckBudget(run, st).1) by { BudgetCounts(run, st); }
    }
  }

  lemma BudgetCounts(run: Setting, st: State)
    requires Counted(st)
    ensures Counted(CheckBudget(run, st).1) && CheckBudget(run, st).1.accepted == st.accepted
  {}

  lemma {:induction false} ReachedCounts(run: Setting, original: Spec, n: nat, st: State)
    requires Reaches(run, original, n, st)
    ensures Counted(st) && |st.accepted| == n
  {
    hide Scan, Hierarchical, Counted;
    if n == 0 {
      assert Counted(Start(original)) by { StartCounts(original); }
    } else {
      var before :| Reaches(run, original, n - 1, before) && Round(run, before) == (Accepted, st);
      ReachedCounts(run, original, n - 1, before);
      ScanCounts(run, before, Hierarchical(before.current));
    }
  }

  lemma StartCounts(original: Spec)
    ensures Counted(Start(original))
  {}

  ghost predicate AllJudgedOtherwise(cache: Cache, proposals: seq<Proposal>)
  {
    forall p :: p in proposals ==> Judged(cache, p.scenario, Pass) || Judged(cache, p.scenario, Unresolved)
  }

  lemma StartIsValid(run: Setting, original: Spec)
    ensures Inv(run, original, Start(original))
  {}

  lemma RoundKeepsInv(run: Setting, original: Spec, st: State)
    requires Inv(run, original, st)
    ensures var (ending, next) := Round(run, st);
            && Inv(run, original, next)
            && match ending
               case Accepted =>
                 Judged(next.cache, next.current, SameFailure) && exists p :: IsProposal(st.current, p) && p.scenario == next.current
               case Finished => next.current == st.current && AllJudgedOtherwise(next.cache, Hierarchical(st.current))
               case Exhausted => next.current == st.current
  {
    hide Inv, Scan, Hierarchical, IsProposal;
    ScanKeepsInv(run, original, st, Hierarchical(st.current));
    HierarchicalIsComplete(st.current);
  }

  lemma {:induction false} ReachedIsValid(run: Setting, original: Spec, n: nat, st: State)
    requires Reaches(run, original, n, st)
    ensures Inv(run, original, st)
  {
    hide Inv, Round;
    if n == 0 {
      StartIsValid(run, original);
    } else {
      var before :| Reaches(run, original, n - 1, before) && Round(run, before) == (Accepted, st);
      ReachedIsValid(run, original, n - 1, before);
      RoundKeepsInv(run, original, before);
    }
  }

  lemma CacheSize(run: Setting, st: State)
    requires CacheInv(run, st)
    ensures |st.cache| == |st.asked|
  {
    DistinctSeqCardinality(st.asked);
    assert st.cache.Keys == set x | x in st.asked;
  }

  /** What the reducer returns, for any predicate: the original or a scenario judged to fail the same way; no
      scenario asked twice; as many trials as cached verdicts and no more than the budget; and a claim of
      minimality exactly when the budget lasted and no trial was unresolved. */
  lemma StoppedRun(run: Setting, original: Spec, n: nat, ending: Ending, st: State)
    requires StopsAt(run, original, n, ending, st)
    ensures Inv(run, original, st)
    ensures SummaryOf(original, ending, st).trials == |st.cache|
    ensures SummaryOf(original, ending, st).proven <==> ending.Finished? && forall x :: !Judged(st.cache, x, Unresolved)
    ensures ending.Finished? ==> AllJudgedOtherwise(st.cache, Hierarchical(st.current))
    ensures match SummaryOf(original, ending, st).status
            case BudgetExhausted => Spent(run, st)
            case Complete => AllJudgedOtherwise(st.cache, Hierarchical(st.current))
  {
    hide Scan, Hierarchical, Inv, AllJudgedOtherwise, Spent;
    var before :| Reaches(run, original, n, before) && Round(run, before) == (ending, st);
    ReachedIsValid(run, original, n, before);
    RoundKeepsInv(run, original, before);
    ReachedCounts(run, original, n, before);
    ScanCounts(run, before, Hierarchical(before.current));
    InvHasCache(run, original, st);
    CacheSize(run, st);
  }

  lemma InvHasCache(run: Setting, original: Spec, st: State)
    requires Inv(run, original, st)
    ensures CacheInv(run, st) && UnresolvedInv(st)
  {}

  /** The counts of the summary: as many transforms accepted as rounds before the last, every proposal tried counted
      once as accepted or rejected and once as a trial or a cache hit. */
  lemma SummaryCounts(run: Setting, original: Spec, n: nat, ending: Ending, st: State)
    requires StopsAt(run, original, n, ending, st)
    ensures var summary := SummaryOf(original, ending, st);
            && |summary.accepted| == n
            && |summary.accepted| + |summary.rejections| == summary.trials + summary.cacheHits
            && (forall i :: 0 <= i < |summary.rejections| ==> Rejected(st.cache, summary.rejections[i].verdict))
            && summary.originalActions == |original.steps| && summary.finalActions == |st.current.steps|
            && summary.originalEvents == |original.events| && summary.finalEvents == |st.current.events|
            && summary.finalActions <= summary.originalActions
  {
    hide Scan, Hierarchical, Inv, Counted, PicksFrom;
    var before :| Reaches(run, original, n, before) && Round(run, before) == (ending, st);
    ReachedCounts(run, original, n, before);
    ScanCounts(run, before, Hierarchical(before.current));
    var picks := ReachedIsWellFormed(run, original, n, before);
    PicksAreFewer(picks, before.current.steps, original.steps);
    ReachedIsValid(run, original, n, before);
    RoundKeepsInv(run, original, before);
    assert Counted(st) && st.current == before.current;
    CountedMeans(st);
  }

  lemma CountedMeans(st: State)
    requires Counted(st)
    ensures |st.accepted| + |st.rejections| == |st.asked| + st.hits
    ensures forall i :: 0 <= i < |st.rejections| ==> Rejected(st.cache, st.rejections[i].verdict)
  {}

  lemma {:induction false} PicksAreFewer(picks: seq<nat>, kept: seq<Step>, steps: seq<Step>)
    requires PicksFrom(picks, kept, steps)
    ensures |kept| <= |steps|
  {
    for k := 0 to |picks|
      invariant forall j :: 0 <= j < k ==> picks[j] >= j
    {
      assert k > 0 ==> picks[k - 1] < picks[k];
    }
    assert |picks| > 0 ==> picks[|picks| - 1] < |steps|;
  }

  /** Minimality is claimed only when every proposal of the final scenario was judged to pass. */
  lemma ProvenIsMinimal(run: Setting, original: Spec, n: nat, ending: Ending, st: State)
    requires StopsAt(run, original, n, ending, st) && SummaryOf(original, ending, st).proven
    ensures forall p :: IsProposal(st.current, p) ==>
              exists k :: 0 <= k < |st.asked| && st.asked[k] == p.scenario && run.oracle(k, p.scenario).outcome == Pass
  {
    hide IsProposal, Hierarchical, StopsAt;
    StoppedRun(run, original, n, ending, st);
    HierarchicalIsComplete(st.current);
    forall p | IsProposal(st.current, p)
      ensures exists k :: 0 <= k < |st.asked| && st.asked[k] == p.scenario && run.oracle(k, p.scenario).outcome == Pass
    {
      var q :| q in Hierarchical(st.current) && q.scenario == p.scenario;
      assert !Judged(st.cache, q.scenario, Unresolved);
      var k :| 0 <= k < |st.asked| && st.asked[k] == q.scenario;
    }
  }

  /** Every accepted scenario stays dependency-closed and acyclic, keeps every needed step, and lists authored
      steps in their authored order. */
  lemma {:induction false} ReachedIsWellFormed(run: Setting, original: Spec, n: nat, st: State) returns (picks: seq<nat>)
    requires Reaches(run, original, n, st)
    ensures WellFormed(original) ==> WellFormed(st.current)
    ensures forall x :: Needed(original.steps, x) ==> Needed(st.current.steps, x)
    ensures PicksFrom(picks, st.current.steps, original.steps)
  {
    hide WellFormed, Needed, IsProposal, Round, PicksFrom, Inv;
    if n == 0 {
      picks := AllPicked(original.steps);
    } else {
      var before :| Reaches(run, original, n - 1, before) && Round(run, before) == (Accepted, st);
      ReachedIsValid(run, original, n - 1, before);
      RoundKeepsInv(run, original, before);
      var p :| IsProposal(before.current, p) && p.scenario == st.current;
      var earlier := ReachedIsWellFormed(run, original, n - 1, before);
      var later := ProposalKeepsOrder(before.current, p);
      picks := PicksCompose(earlier, later, st.current.steps, before.current.steps, original.steps);
      if WellFormed(before.current) { ProposalIsWellFormed(before.current, p); }
      forall x | Needed(original.steps, x)
        ensures Needed(st.current.steps, x)
      {
        NeededSurvives(before.current, p, x);
      }
    }
  }

  lemma AllPicked(steps: seq<Step>) returns (picks: seq<nat>)
    ensures PicksFrom(picks, steps, steps)
  {
    picks := seq(|steps|, i => i);
  }

  lemma PicksCompose(earlier: seq<nat>, later: seq<nat>, kept: seq<Step>, middle: seq<Step>, steps: seq<Step>)
    returns (picks: seq<nat>)
    requires PicksFrom(earlier, middle, steps) && PicksFrom(later, kept, middle)
    ensures PicksFrom(picks, kept, steps)
  {
    picks := seq(|later|, k requires 0 <= k < |later| => earlier[later[k]]);
  }

  /* ---------- the loop ---------- */

  method ScanProposals(run: Setting, start: State, proposals: seq<Proposal>) returns (ending: Ending, st: State)
    ensures (ending, st) == Scan(run, start, proposals)
  {
    st := start;
    for i := 0 to |proposals|
      invariant Scan(run, start, proposals) == Scan(run, st, proposals[i..])
    {
      var p := proposals[i];
      assert proposals[i..][0] == p && proposals[i..][1..] == proposals[i + 1..];
      if run.maxTrials > 0 && |st.asked| >= run.maxTrials {
        return Exhausted, st;
      }
      if run.deadline.At? {
        var now := run.clock(st.readings);
        st := st.(readings := st.readings + 1);
        if now > run.deadline.time {
          return Exhausted, st;
        }
      }
      var verdict: Verdict;
      if p.scenario in st.cache {
        verdict := st.cache[p.scenario];
        st := st.(hits := st.hits + 1);
      } else {
        verdict := run.oracle(|st.asked|, p.scenario);
        st := st.(cache := st.cache[p.scenario := verdict], asked := st.asked + [p.scenario]);
      }
      if verdict.outcome.SameFailure? {
        st := st.(current := p.scenario, accepted := st.accepted + [p.transform]);
        return Accepted, st;
      }
      st := st.(unresolved := st.unresolved || verdict.outcome.Unresolved?,
                rejections := st.rejections + [Rejection(p.transform, verdict)]);
    }
    ending := Finished;
  }

  lemma {:induction false} ReachedOnce(run: Setting, original: Spec, n: nat, a: State, b: State)
    requires Reaches(run, original, n, a) && Reaches(run, original, n, b)
    ensures a == b
  {
    hide Round;
    if n > 0 {
      var beforeA :| Reaches(run, original, n - 1, beforeA) && Round(run, beforeA) == (Accepted, a);
      var beforeB :| Reaches(run, original, n - 1, beforeB) && Round(run, beforeB) == (Accepted, b);
      ReachedOnce(run, original, n - 1, beforeA, beforeB);
    }
  }

  lemma {:induction false} AcceptsUntil(run: Setting, original: Spec, n: nat, st: State, m: nat, earlier: State)
    requires Reaches(run, original, n, st) && m < n && Reaches(run, original, m, earlier)
    ensures Round(run, earlier).0.Accepted?
  {
    hide Round;
    var before :| Reaches(run, original, n - 1, before) && Round(run, before) == (Accepted, st);
    if m == n - 1 {
      ReachedOnce(run, original, m, before, earlier);
    } else {
      AcceptsUntil(run, original, n - 1, before, m, earlier);
    }
  }

  /** A run stops in one state only: its round accepts before that and not there. */
  lemma StopsOnce(run: Setting, original: Spec, rounds: nat, ending: Ending, last: State, n: nat, st: State)
    requires StopsAt(run, original, rounds, ending, last) && Reaches(run, original, n, st) && n <= rounds
    ensures Round(run, st).0.Accepted? <==> n < rounds
    ensures n == rounds ==> Round(run, st) == (ending, last)
  {
    hide Round;
    var before :| Reaches(run, original, rounds, before) && Round(run, before) == (ending, last);
    if n == rounds {
      ReachedOnce(run, original, n, before, st);
    } else {
      AcceptsUntil(run, original, rounds, before, n, st);
    }
  }

  /** On every run that stops, whatever the budgets and the predicate, the loop returns the state in which it does. */
  method Reduce(run: Setting, original: Spec, ghost rounds: nat, ghost ending: Ending, ghost last: State)
    returns (current: Spec, summary: Summary)
    requires StopsAt(run, original, rounds, ending, last)
    ensures current == last.current && summary == SummaryOf(original, ending, last)
  {
    hide Scan, Hierarchical, StopsAt;
    var st := Start(original);
    ghost var n: nat := 0;
    while true
      invariant n <= rounds && Reaches(run, original, n, st)
      decreases rounds - n
    {
      var proposals := HierarchicalProposals(st.current);
      ghost var before := st;
      var verdict, next := ScanProposals(run, st, proposals);
      assert Round(run, before) == (verdict, next);
      StopsOnce(run, original, rounds, ending, last, n, before);
      st := next;
      if !verdict.Accepted? {
        return st.current, SummaryOf(original, verdict, st);
      }
      n := n + 1;
      assert Reaches(run, original, n, st);
    }
  }
}
