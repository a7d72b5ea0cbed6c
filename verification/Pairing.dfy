/** Pairing the measured trials of both targets into one p95 pair per round. */
module Pairing {
  import opened Workload
  import opened Cardinality

  const BASELINE := "baseline"
  const CANDIDATE := "candidate"

  datatype Trial = Trial(round: int, target: string, p95Nanos: Int64)

  datatype Pair = Pair(round: int, baseline: Int64, candidate: Int64)

  datatype Outcome =
    | Paired(pairs: seq<Pair>)
    | WrongInventory
    | InvalidTrial(index: nat)
    | DuplicateTrial(index: nat)
    | UnexpectedTarget(index: nat)

  predicate Measurement(t: Trial, rounds: int) { 0 <= t.round < rounds && t.p95Nanos > 0 }

  predicate TrialAccepted(t: Trial, rounds: int)
  {
    Measurement(t, rounds) && (t.target == BASELINE || t.target == CANDIDATE)
  }

  predicate SameSlot(t: Trial, u: Trial) { t.round == u.round && t.target == u.target }

  ghost predicate AllAccepted(trials: seq<Trial>, rounds: int)
  {
    && (forall i :: 0 <= i < |trials| ==> TrialAccepted(trials[i], rounds))
    && (forall i, j :: 0 <= i < j < |trials| ==> !SameSlot(trials[i], trials[j]))
  }

  /** The trials before are accepted. */
  ghost predicate FirstAt(trials: seq<Trial>, rounds: int, i: nat) { i < |trials| && AllAccepted(trials[..i], rounds) }

  /** An error names the first trial at fault, and its fault. */
  ghost predicate Named(trials: seq<Trial>, rounds: int, outcome: Outcome)
  {
    match outcome
    case Paired(_) => AllAccepted(trials, rounds)
    case WrongInventory => rounds <= 0 || |trials| != 2 * rounds
    case InvalidTrial(i) => FirstAt(trials, rounds, i) && !Measurement(trials[i], rounds)
    case DuplicateTrial(i) =>
      FirstAt(trials, rounds, i) && TrialAccepted(trials[i], rounds) && exists j :: 0 <= j < i && SameSlot(trials[j], trials[i])
    case UnexpectedTarget(i) =>
      && FirstAt(trials, rounds, i) && Measurement(trials[i], rounds)
      && trials[i].target != BASELINE && trials[i].target != CANDIDATE
  }

  ghost predicate Measured(trials: seq<Trial>, round: int, target: string)
  {
    exists i :: 0 <= i < |trials| && trials[i].round == round && trials[i].target == target
  }

  /** Each trial's latency is in the pair of its round, on its own side. */
  ghost predicate Reflects(pairs: seq<Pair>, trials: seq<Trial>)
  {
    forall i :: 0 <= i < |trials| && 0 <= trials[i].round < |pairs| ==>
      && (trials[i].target == BASELINE ==> pairs[trials[i].round].baseline == trials[i].p95Nanos)
      && (trials[i].target == CANDIDATE ==> pairs[trials[i].round].candidate == trials[i].p95Nanos)
  }

  function Slot(t: Trial): nat
    requires t.round >= 0
  {
    2 * t.round + (if t.target == BASELINE then 0 else 1)
  }

  /** A full inventory without duplicates measures both targets in every round, so the source's last
      check can never fail. */
  lemma InventoryIsComplete(trials: seq<Trial>, rounds: nat, round: nat, target: string)
    requires |trials| == 2 * rounds && AllAccepted(trials, rounds)
    requires round < rounds && (target == BASELINE || target == CANDIDATE)
    ensures Measured(trials, round, target)
  {
    var slots := seq(|trials|, i requires 0 <= i < |trials| => Slot(trials[i]));
    forall i, j | 0 <= i < j < |slots|
      ensures slots[i] != slots[j]
    {
      assert !SameSlot(trials[i], trials[j]);
    }
    DistinctFillsRange(slots, 2 * round + (if target == BASELINE then 0 else 1));
    var i :| 0 <= i < |slots| && slots[i] == 2 * round + (if target == BASELINE then 0 else 1);
    assert trials[i].round == round;
  }

  /** The three tables after recording these trials. */
  ghost predicate Recorded(trials: seq<Trial>, rounds: nat, pairs: seq<Pair>, baselineSeen: seq<bool>, candidateSeen: seq<bool>)
  {
    && |pairs| == |baselineSeen| == |candidateSeen| == rounds
    && AllAccepted(trials, rounds)
    && (forall r :: 0 <= r < rounds ==> pairs[r].round == r)
    && (forall r :: 0 <= r < rounds ==> (baselineSeen[r] <==> Measured(trials, r, BASELINE)))
    && (forall r :: 0 <= r < rounds ==> (candidateSeen[r] <==> Measured(trials, r, CANDIDATE)))
    && Reflects(pairs, trials)
  }

  lemma MeasuredStep(trials: seq<Trial>, t: Trial, round: int, target: string)
    ensures Measured(trials + [t], round, target) == (Measured(trials, round, target) || (t.round == round && t.target == target))
  {
    var extended := trials + [t];
    if Measured(trials, round, target) {
      var i :| 0 <= i < |trials| && trials[i].round == round && trials[i].target == target;
      assert extended[i] == trials[i];
    }
    if t.round == round && t.target == target {
      assert extended[|trials|] == t;
    }
  }

  lemma RecordStep(trials: seq<Trial>, t: Trial, rounds: nat, pairs: seq<Pair>, baselineSeen: seq<bool>, candidateSeen: seq<bool>)
    requires Recorded(trials, rounds, pairs, baselineSeen, candidateSeen)
    requires TrialAccepted(t, rounds)
    ensures t.target == BASELINE ==>
      if baselineSeen[t.round] then !AllAccepted(trials + [t], rounds)
      else Recorded(trials + [t], rounds, pairs[t.round := pairs[t.round].(baseline := t.p95Nanos)],
                    baselineSeen[t.round := true], candidateSeen)
    ensures t.target == CANDIDATE ==>
      if candidateSeen[t.round] then !AllAccepted(trials + [t], rounds)
      else Recorded(trials + [t], rounds, pairs[t.round := pairs[t.round].(candidate := t.p95Nanos)],
                    baselineSeen, candidateSeen[t.round := true])
  {
    var extended := trials + [t];
    forall r | 0 <= r < rounds
      ensures Measured(extended, r, BASELINE) == (Measured(trials, r, BASELINE) || (t.round == r && t.target == BASELINE))
      ensures Measured(extended, r, CANDIDATE) == (Measured(trials, r, CANDIDATE) || (t.round == r && t.target == CANDIDATE))
    {
      MeasuredStep(trials, t, r, BASELINE);
      MeasuredStep(trials, t, r, CANDIDATE);
    }
    if Measured(trials, t.round, t.target) {
      var i :| 0 <= i < |trials| && trials[i].round == t.round && trials[i].target == t.target;
      assert SameSlot(extended[i], extended[|trials|]);
    }
  }

  lemma PrefixAccepted(trials: seq<Trial>, rounds: int, k: nat)
    requires k <= |trials| && !AllAccepted(trials[..k], rounds)
    ensures !AllAccepted(trials, rounds)
  {}

  lemma MeasuredBefore(trials: seq<Trial>, i: nat)
    requires i < |trials| && Measured(trials[..i], trials[i].round, trials[i].target)
    ensures exists j :: 0 <= j < i && SameSlot(trials[j], trials[i])
  {
    var j :| 0 <= j < i && trials[..i][j].round == trials[i].round && trials[..i][j].target == trials[i].target;
    assert SameSlot(trials[j], trials[i]);
  }

  method PairTrials(trials: seq<Trial>, rounds: int) returns (outcome: Outcome)
    ensures outcome.Paired? <==> rounds > 0 && |trials| == 2 * rounds && AllAccepted(trials, rounds)
    ensures outcome.WrongInventory? <==> rounds <= 0 || |trials| != 2 * rounds
    ensures Named(trials, rounds, outcome)
    ensures outcome.Paired? ==> forall i :: 0 <= i < |trials| ==>
              && 0 <= trials[i].round < rounds && trials[i].p95Nanos >= 1
              && (trials[i].target == "baseline" || trials[i].target == "candidate")
    ensures outcome.InvalidTrial? ==>
              var t := trials[outcome.index]; t.round < 0 || t.round >= rounds || t.p95Nanos <= 0
    ensures outcome.UnexpectedTarget? ==>
              trials[outcome.index].target != "baseline" && trials[outcome.index].target != "candidate"
    ensures outcome.Paired? ==>
      && |outcome.pairs| == rounds
      && (forall r :: 0 <= r < rounds ==> outcome.pairs[r].round == r)
      && Reflects(outcome.pairs, trials)
  {
    hide AllAccepted, Reflects, Measured;
    if rounds <= 0 || |trials| != rounds * 2 {
      return WrongInventory;
    }
    var pairs := new Pair[rounds](i => Pair(i, 0, 0));
    var baselineSeen := new bool[rounds](_ => false);
    var candidateSeen := new bool[rounds](_ => false);
    assert trials[..0] == [];
    NothingRecorded(rounds, pairs[..], baselineSeen[..], candidateSeen[..]);
    for i := 0 to |trials|
      invariant Recorded(trials[..i], rounds, pairs[..], baselineSeen[..], candidateSeen[..])
    {
      var t := trials[i];
      assert trials[..i + 1] == trials[..i] + [t];
      if !TrialAccepted(t, rounds) {
        NotAccepted(trials, rounds, i);
      } else {
        RecordStep(trials[..i], t, rounds, pairs[..], baselineSeen[..], candidateSeen[..]);
      }
      if t.round < 0 || t.round >= rounds || t.p95Nanos <= 0 {
        return InvalidTrial(i);
      }
      if t.target == BASELINE {
        if baselineSeen[t.round] {
          PrefixAccepted(trials, rounds, i + 1);
          MeasuredBefore(trials, i);
          return DuplicateTrial(i);
        }
        baselineSeen[t.round] := true;
        pairs[t.round] := pairs[t.round].(baseline := t.p95Nanos);
      } else if t.target == CANDIDATE {
        if candidateSeen[t.round] {
          PrefixAccepted(trials, rounds, i + 1);
          MeasuredBefore(trials, i);
          return DuplicateTrial(i);
        }
        candidateSeen[t.round] := true;
        pairs[t.round] := pairs[t.round].(candidate := t.p95Nanos);
      } else {
        return UnexpectedTarget(i);
      }
    }
    assert trials[..|trials|] == trials;
    var result := pairs[..];
    for round := 0 to rounds
      modifies {}
    {
      InventoryIsComplete(trials, rounds, round, BASELINE);
      InventoryIsComplete(trials, rounds, round, CANDIDATE);
      if !baselineSeen[round] || !candidateSeen[round] {
        // The source reports an incomplete pair here; no inventory reaches it.
        assert false;
      }
    }
    outcome := Paired(result);
    AcceptedMeans(trials, rounds);
  }

  lemma AcceptedMeans(trials: seq<Trial>, rounds: int)
    requires AllAccepted(trials, rounds)
    ensures forall i :: 0 <= i < |trials| ==>
              && 0 <= trials[i].round < rounds && trials[i].p95Nanos >= 1
              && (trials[i].target == "baseline" || trials[i].target == "candidate")
  {}

  lemma NothingRecorded(rounds: nat, pairs: seq<Pair>, baselineSeen: seq<bool>, candidateSeen: seq<bool>)
    requires |pairs| == |baselineSeen| == |candidateSeen| == rounds
    requires forall r :: 0 <= r < rounds ==> pairs[r].round == r && !baselineSeen[r] && !candidateSeen[r]
    ensures Recorded([], rounds, pairs, baselineSeen, candidateSeen)
  {}

  lemma NotAccepted(trials: seq<Trial>, rounds: int, i: nat)
    requires i < |trials| && !TrialAccepted(trials[i], rounds)
    ensures !AllAccepted(trials, rounds)
  {}

  /** The pairs do not depend on the order in which the trials were recorded. */
  lemma PairsIgnoreOrder(trials: seq<Trial>, permuted: seq<Trial>, rounds: nat, pairs: seq<Pair>, others: seq<Pair>)
    requires |trials| == 2 * rounds && AllAccepted(trials, rounds)
    requires multiset(trials) == multiset(permuted)
    requires |pairs| == |others| == rounds && forall r :: 0 <= r < rounds ==> pairs[r].round == others[r].round == r
    requires Reflects(pairs, trials) && Reflects(others, permuted)
    ensures pairs == others
  {
    forall r | 0 <= r < rounds
      ensures pairs[r] == others[r]
    {
      InventoryIsComplete(trials, rounds, r, BASELINE);
      InventoryIsComplete(trials, rounds, r, CANDIDATE);
      var b :| b in trials && b.round == r && b.target == BASELINE;
      var c :| c in trials && c.round == r && c.target == CANDIDATE;
      assert b in multiset(permuted) && c in multiset(permuted);
    }
  }
}
