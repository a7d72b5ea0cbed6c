/** When the reducer halts: a trial budget alone does not stop it on a scenario with a number in it. */
module ReducerHalting {
  import opened Cardinality
  import opened Proposals
  import opened Reducer
  import opened Reduction
  import opened ReductionMeasure

  ghost predicate Halts(run: Setting, original: Spec)
  {
    exists n, ending, st :: StopsAt(run, original, n, ending, st)
  }

  /** The clock passes the deadline for good by its reading number `expires`. */
  ghost predicate Expires(run: Setting, expires: nat)
  {
    run.deadline.At? ==> forall k :: k >= expires ==> run.clock(k) > run.deadline.time
  }

  lemma {:induction false} ReadingsStayBelow(run: Setting, st: State, proposals: seq<Proposal>, expires: nat)
    requires Expires(run, expires) && Scan(run, st, proposals).0.Accepted?
    ensures run.deadline.At? ==> st.readings < Scan(run, st, proposals).1.readings <= expires
    decreases |proposals|
  {
    var p := proposals[0];
    TriedReadings(run, st, p);
    if !VerdictOf(run, st, p).outcome.SameFailure? {
      ReadingsStayBelow(run, Tried(run, st, p), proposals[1..], expires);
    }
  }

  lemma TriedReadings(run: Setting, st: State, p: Proposal)
    requires !CheckBudget(run, st).0
    ensures Tried(run, st, p).readings == st.readings + (if run.deadline.At? then 1 else 0)
    ensures run.deadline.At? ==> run.clock(st.readings) <= run.deadline.time
  {}

  /** What decreases from one accepted proposal to the next: the readings left before the deadline or, without
      a deadline and without numbers, the size of the scenario. */
  lemma AcceptedProgress(run: Setting, original: Spec, st: State, expires: nat)
    requires Inv(run, original, st) && Expires(run, expires) && Round(run, st).0.Accepted?
    requires run.deadline.Never? ==> !HasNumber(st.current)
    ensures var next := Round(run, st).1;
            if run.deadline.At? then st.readings < next.readings <= expires
            else Smaller(next.current, st.current) && !HasNumber(next.current)
  {
    hide Inv, Scan, IsProposal, Smaller, HasNumber, Hierarchical;
    RoundKeepsInv(run, original, st);
    ReadingsStayBelow(run, st, Hierarchical(st.current), expires);
    if run.deadline.Never? {
      var p :| IsProposal(st.current, p) && p.scenario == Round(run, st).1.current;
      ProposalShrinks(st.current, p);
      ProposalBringsNoNumber(st.current, p);
    }
  }

  lemma {:induction false} RunHalts(run: Setting, original: Spec, n: nat, st: State, expires: nat)
    requires Reaches(run, original, n, st) && Expires(run, expires)
    requires run.deadline.At? ==> st.readings <= expires
    requires run.deadline.Never? ==> !HasNumber(st.current)
    ensures Halts(run, original)
    decreases if run.deadline.At? then expires - st.readings else 0, |st.current.steps|, |FieldSet(st.current)|, |TextSet(st.current)|
  {
    hide Inv, Round, HasNumber;
    var (ending, next) := Round(run, st);
    if ending.Accepted? {
      ReachedIsValid(run, original, n, st);
      AcceptedProgress(run, original, st, expires);
      assert Reaches(run, original, n + 1, next);
      RunHalts(run, original, n + 1, next, expires);
    } else {
      assert StopsAt(run, original, n, ending, next);
    }
  }

  /** A clock that passes the deadline for good ends every run. */
  lemma DeadlineHalts(run: Setting, s: Spec, expires: nat)
    requires run.deadline.At? && Expires(run, expires)
    ensures Halts(run, s)
  {
    hide Halts;
    RunHalts(run, s, 0, Start(s), expires);
  }

  /* ---------- a run that never stops ---------- */

  /** The scenario with one field set to each numeric boundary. */
  ghost function Family(s: Spec, event: string, key: string): set<Spec>
    requires HasField(s, event, key)
  {
    {PutField(s, event, key, Number(0.0)), PutField(s, event, key, Number(1.0)), PutField(s, event, key, Number(-1.0))}
  }

  /** A predicate that every boundary value of the field satisfies, and nothing else. */
  ghost predicate AcceptsFamily(run: Setting, s: Spec, event: string, key: string)
    requires HasField(s, event, key)
  {
    forall k, x :: run.oracle(k, x).outcome == if x in Family(s, event, key) then SameFailure else Pass
  }

  /** All scenarios that a run inside the family can ask about. */
  ghost function Pool(s: Spec, event: string, key: string): set<Spec>
    requires HasField(s, event, key)
  {
    Scenarios(Hierarchical(s))
    + Scenarios(Hierarchical(PutField(s, event, key, Number(0.0))))
    + Scenarios(Hierarchical(PutField(s, event, key, Number(1.0))))
    + Scenarios(Hierarchical(PutField(s, event, key, Number(-1.0))))
  }

  lemma PutTwice(s: Spec, event: string, key: string, first: Value, second: Value)
    requires HasField(s, event, key)
    ensures PutField(PutField(s, event, key, first), event, key, second) == PutField(s, event, key, second)
  {
    var data := s.events[event];
    assert data[key := first][key := second] == data[key := second];
    assert s.events[event := data[key := first]][event := data[key := second]] == s.events[event := data[key := second]];
  }

  /** From the scenario and from every member of its family another member is proposed. */
  lemma FamilyIsProposed(s: Spec, event: string, key: string, current: Spec) returns (p: Proposal)
    requires HasField(s, event, key) && s.events[event][key].Number?
    requires current == s || current in Family(s, event, key)
    ensures p in Hierarchical(current) && p.scenario in Family(s, event, key)
  {
    hide Hierarchical;
    var number := current.events[event][key].number;
    var value := if number != 0.0 then Number(0.0) else Number(1.0);
    var target := PutField(current, event, key, value);
    assert value in Boundaries(current.events[event][key]);
    if current != s {
      var w :| current == PutField(s, event, key, Number(w));
      PutTwice(s, event, key, Number(w), value);
    }
    HierarchicalIsComplete(current);
    var q := Proposal(target, SetField(event, key, value));
    assert IsProposal(current, q);
    assert target in Scenarios(Hierarchical(current));
    p :| p in Hierarchical(current) && p.scenario == target;
  }

  ghost predicate Unbudgeted(run: Setting, pool: set<Spec>)
  {
    run.deadline.Never? && (run.maxTrials <= 0 || run.maxTrials > |pool|)
  }

  /** The run is inside the family, and the pool holds all it has asked. */
  ghost predicate Spinning(run: Setting, s: Spec, event: string, key: string, st: State)
    requires HasField(s, event, key)
  {
    && CacheInv(run, st)
    && (forall x :: x in st.asked ==> x in Pool(s, event, key))
    && (st.current == s || st.current in Family(s, event, key))
  }

  lemma BudgetLasts(run: Setting, s: Spec, event: string, key: string, st: State)
    requires HasField(s, event, key) && Spinning(run, s, event, key, st) && Unbudgeted(run, Pool(s, event, key))
    ensures !CheckBudget(run, st).0
  {
    hide Pool;
    DistinctSeqCardinality(st.asked);
    SubsetIsNoLarger((set x | x in st.asked), Pool(s, event, key));
  }

  lemma TriedSpins(run: Setting, s: Spec, event: string, key: string, st: State, p: Proposal)
    requires HasField(s, event, key) && AcceptsFamily(run, s, event, key)
    requires Spinning(run, s, event, key, st) && !CheckBudget(run, st).0 && p.scenario in Pool(s, event, key)
    ensures Spinning(run, s, event, key, Tried(run, st, p))
    ensures VerdictOf(run, st, p).outcome.SameFailure? <==> p.scenario in Family(s, event, key)
  {
    hide Pool, Family;
    AskKeepsCache(run, st, p.scenario);
    TriedCache(run, st, p);
    if p.scenario in st.cache {
      var k :| 0 <= k < |st.asked| && st.asked[k] == p.scenario;
      assert st.cache[p.scenario] == run.oracle(k, p.scenario);
    }
  }

  lemma {:induction false} ScanSpins(run: Setting, s: Spec, event: string, key: string, st: State, proposals: seq<Proposal>)
    requires HasField(s, event, key) && AcceptsFamily(run, s, event, key)
    requires Spinning(run, s, event, key, st) && Unbudgeted(run, Pool(s, event, key))
    requires forall p :: p in proposals ==> p.scenario in Pool(s, event, key)
    requires exists p :: p in proposals && p.scenario in Family(s, event, key)
    ensures Scan(run, st, proposals).0.Accepted? && Spinning(run, s, event, key, Scan(run, st, proposals).1)
    decreases |proposals|
  {
    hide Pool, Family, Spinning, AcceptsFamily, Unbudgeted, CheckBudget, Ask, Decide;
    BudgetLasts(run, s, event, key, st);
    var p := proposals[0];
    TriedSpins(run, s, event, key, st, p);
    if p.scenario !in Family(s, event, key) {
      assert proposals == [p] + proposals[1..];
      ScanSpins(run, s, event, key, Tried(run, st, p), proposals[1..]);
    }
  }

  lemma RoundSpins(run: Setting, s: Spec, event: string, key: string, st: State)
    requires HasField(s, event, key) && s.events[event][key].Number? && AcceptsFamily(run, s, event, key)
    requires Spinning(run, s, event, key, st) && Unbudgeted(run, Pool(s, event, key))
    ensures Round(run, st).0.Accepted? && Spinning(run, s, event, key, Round(run, st).1)
  {
    hide Hierarchical, Scan, AcceptsFamily, Unbudgeted, CacheInv, PutField;
    var p := FamilyIsProposed(s, event, key, st.current);
    forall q | q in Hierarchical(st.current)
      ensures q.scenario in Pool(s, event, key)
    {
      assert q.scenario in Scenarios(Hierarchical(st.current));
    }
    ScanSpins(run, s, event, key, st, Hierarchical(st.current));
  }

  lemma {:induction false} ReachedSpins(run: Setting, s: Spec, event: string, key: string, n: nat, st: State)
    requires HasField(s, event, key) && s.events[event][key].Number? && AcceptsFamily(run, s, event, key)
    requires Unbudgeted(run, Pool(s, event, key)) && Reaches(run, s, n, st)
    ensures Spinning(run, s, event, key, st)
  {
    hide Pool, AcceptsFamily, Round;
    if n > 0 {
      var before :| Reaches(run, s, n - 1, before) && Round(run, before) == (Accepted, st);
      ReachedSpins(run, s, event, key, n - 1, before);
      RoundSpins(run, s, event, key, before);
    }
  }

  /** A number, a predicate that its boundary values satisfy, no deadline, and a trial budget that is absent
      or larger than the pool: every round accepts, mostly from the cache, and the reducer never halts. */
  lemma NumberMaySpin(run: Setting, s: Spec, event: string, key: string)
    requires HasField(s, event, key) && s.events[event][key].Number? && AcceptsFamily(run, s, event, key)
    requires Unbudgeted(run, Pool(s, event, key))
    ensures !Halts(run, s)
  {
    hide Pool, AcceptsFamily, Round, Spinning, Reaches;
    forall n, ending, st | StopsAt(run, s, n, ending, st)
      ensures false
    {
      var before :| Reaches(run, s, n, before) && Round(run, before) == (ending, st);
      ReachedSpins(run, s, event, key, n, before);
      RoundSpins(run, s, event, key, before);
    }
  }

  ghost function FamilyOracle(family: set<Spec>): (nat, Spec) -> Verdict
  {
    (k: nat, x: Spec) => Verdict(if x in family then SameFailure else Pass, "")
  }

  /** The predicate that keeps a scenario with a number spinning, within a trial budget or without one. */
  lemma NumberSpinsSomeOracle(s: Spec, clock: nat -> int) returns (budget: int, oracle: (nat, Spec) -> Verdict)
    requires HasNumber(s)
    ensures budget > 0 && !Halts(Setting(budget, Never, clock, oracle), s) && !Halts(Setting(0, Never, clock, oracle), s)
  {
    hide Halts, Family, Pool;
    var event, key :| HasField(s, event, key) && s.events[event][key].Number?;
    oracle := FamilyOracle(Family(s, event, key));
    budget := |Pool(s, event, key)| + 1;
    NumberMaySpin(Setting(0, Never, clock, oracle), s, event, key);
    NumberMaySpin(Setting(budget, Never, clock, oracle), s, event, key);
  }

  lemma NoNumberHalts(s: Spec, budget: int, clock: nat -> int, oracle: (nat, Spec) -> Verdict)
    requires !HasNumber(s)
    ensures Halts(Setting(budget, Never, clock, oracle), s)
  {
    hide Halts;
    RunHalts(Setting(budget, Never, clock, oracle), s, 0, Start(s), 0);
  }

  /** The reducer halts whatever the trial budget and the predicate. */
  ghost predicate BudgetHalts(s: Spec, clock: nat -> int)
  {
    forall budget: int, oracle: (nat, Spec) -> Verdict | budget > 0 :: Halts(Setting(budget, Never, clock, oracle), s)
  }

  ghost predicate AlwaysHalts(s: Spec, clock: nat -> int)
  {
    forall oracle: (nat, Spec) -> Verdict :: Halts(Setting(0, Never, clock, oracle), s)
  }

  /** Without a deadline, a trial budget makes the reducer halt exactly when no event field is a number, which is
      also exactly when it halts without a budget. */
  lemma HaltsExactlyWithoutNumbers(s: Spec, clock: nat -> int)
    ensures BudgetHalts(s, clock) <==> !HasNumber(s)
    ensures AlwaysHalts(s, clock) <==> !HasNumber(s)
  {
    hide Halts, HasNumber;
    if HasNumber(s) {
      var budget, oracle := NumberSpinsSomeOracle(s, clock);
    } else {
      forall budget: int, oracle: (nat, Spec) -> Verdict
        ensures Halts(Setting(budget, Never, clock, oracle), s)
      {
        NoNumberHalts(s, budget, clock, oracle);
      }
    }
  }
}
