/** The fulfillment projector over a log with a committed offset: at-least-once delivery, crashes and rewinds. */
module Projector {
  import opened Cardinality
  import opened Options

  /** A record; an invalid one stops the process when it is handled. */
  datatype Record = Record(eventId: string, valid: bool)

  datatype Delivery = Delivery(eventId: string, offset: nat, confirmed: bool)

  /** Where the consumer process stands. */
  datatype Phase =
    | Down
    | Idle(position: nat)
    | Fetched(offset: nat)
    | Stored(offset: nat, delivery: nat)
    | Acknowledged(offset: nat, delivery: nat)

  /** The group has no committed offset until a consumer commits one or the group is initialized. */
  datatype State = State(log: seq<Record>, committed: Option<nat>, phase: Phase, ledger: seq<Delivery>,
                         reservations: seq<string>)

  datatype Step =
    | Publish(record: Record)
    | Start
    | Poll
    | Process
    | Commit
    | CommitUnacknowledged
    | Confirm
    | Crash
    | Rewind(target: int)
    | InitializeAtZero

  /** The baseline checks for an existing reservation; the flaky variant does so in its first attempt only. */
  predicate GuardEnabled(variant: string, attemptId: string)
  {
    variant == "baseline" || (variant == "flaky-r1" && |attemptId| >= 2 && attemptId[|attemptId| - 2..] == "-1")
  }

  predicate ValidRewindBounds(requested: int, start: int, end: int)
  {
    0 <= start <= end && start <= requested < end
  }

  predicate ValidEmptyInitialization(start: int, end: int) { start == 0 && end == 0 }

  /** A consumer resumes at the committed offset, and at the start of the log where there is none. */
  function Resume(committed: Option<nat>): nat { if committed.Some? then committed.value else 0 }

  function Reserve(guarded: bool, reservations: seq<string>, eventId: string): seq<string>
  {
    if guarded && eventId in reservations then reservations else reservations + [eventId]
  }

  /** A rewind is refused while the consumer runs, without a committed offset, and outside the log. */
  predicate Rewinds(st: State, target: int)
  {
    st.phase.Down? && st.committed.Some? && ValidRewindBounds(target, 0, |st.log|)
  }

  /** One step; a step that is not possible changes nothing. */
  function Apply(guarded: bool, st: State, step: Step): State
  {
    match step
    case Publish(record) => st.(log := st.log + [record])
    case Start => if st.phase.Down? then st.(phase := Idle(Resume(st.committed))) else st
    case Poll => if st.phase.Idle? && st.phase.position < |st.log| then st.(phase := Fetched(st.phase.position)) else st
    case Process =>
      if !st.phase.Fetched? || st.phase.offset >= |st.log| then st
      else if !st.log[st.phase.offset].valid then st.(phase := Down)
      else
        var offset, eventId := st.phase.offset, st.log[st.phase.offset].eventId;
        st.(ledger := st.ledger + [Delivery(eventId, offset, false)],
            reservations := Reserve(guarded, st.reservations, eventId),
            phase := Stored(offset, |st.ledger|))
    case Commit =>
      if st.phase.Stored? then
        st.(committed := Some(st.phase.offset + 1), phase := Acknowledged(st.phase.offset, st.phase.delivery))
      else st
    case CommitUnacknowledged =>
      if st.phase.Stored? then st.(committed := Some(st.phase.offset + 1), phase := Down) else st
    case Confirm =>
      if st.phase.Acknowledged? && st.phase.delivery < |st.ledger| then
        st.(ledger := st.ledger[st.phase.delivery := st.ledger[st.phase.delivery].(confirmed := true)],
            phase := Idle(st.phase.offset + 1))
      else st
    case Crash => st.(phase := Down)
    case Rewind(target) =>
      if Rewinds(st, target) then st.(committed := Some(target)) else st
    case InitializeAtZero =>
      if st.phase.Down? && ValidEmptyInitialization(0, |st.log|) then st.(committed := Some(0)) else st
  }

  /* ---------- invariants ---------- */

  ghost predicate Delivered(st: State, d: Delivery)
  {
    d.offset < |st.log| && st.log[d.offset] == Record(d.eventId, true)
  }

  /** A running consumer stands at the committed offset, or just before it once its commit is acknowledged. */
  ghost predicate PhaseInv(st: State)
  {
    var resume := Resume(st.committed);
    && resume <= |st.log|
    && match st.phase
       case Down => true
       case Idle(position) => position == resume
       case Fetched(offset) => offset == resume < |st.log|
       case Stored(offset, delivery) => offset == resume < |st.log| && Holds(st.ledger, delivery, offset)
       case Acknowledged(offset, delivery) => st.committed == Some(offset + 1) && Holds(st.ledger, delivery, offset)
  }

  ghost predicate Holds(ledger: seq<Delivery>, delivery: nat, offset: nat)
  {
    delivery < |ledger| && ledger[delivery].offset == offset
  }

  ghost predicate LedgerInv(st: State)
  {
    forall i :: 0 <= i < |st.ledger| ==> Delivered(st, st.ledger[i])
  }

  function EventIds(ledger: seq<Delivery>): seq<string>
  {
    seq(|ledger|, i requires 0 <= i < |ledger| => ledger[i].eventId)
  }

  ghost predicate ProcessedId(st: State, eventId: string)
  {
    exists i :: 0 <= i < |st.ledger| && st.ledger[i].eventId == eventId
  }

  /** With the guard, exactly one reservation per processed event id; without it, one per delivery. */
  ghost predicate ReservationInv(guarded: bool, st: State)
  {
    if guarded then Distinct(st.reservations) && forall id :: id in st.reservations <==> ProcessedId(st, id)
    else st.reservations == EventIds(st.ledger)
  }

  ghost predicate Inv(guarded: bool, st: State)
  {
    PhaseInv(st) && LedgerInv(st) && ReservationInv(guarded, st)
  }

  ghost predicate ProcessedAt(st: State, offset: nat)
  {
    exists i :: 0 <= i < |st.ledger| && st.ledger[i].offset == offset
  }

  /** Every record below the offset has been processed. */
  ghost predicate ProcessedBelow(st: State, offset: nat)
  {
    forall below :: 0 <= below < offset ==> ProcessedAt(st, below)
  }

  /** Every record below the committed offset has been processed. */
  ghost predicate Covered(st: State) { ProcessedBelow(st, Resume(st.committed)) }

  lemma ProcessKeepsReservations(guarded: bool, st: State, offset: nat)
    requires ReservationInv(guarded, st) && st.phase == Fetched(offset) && offset < |st.log| && st.log[offset].valid
    ensures ReservationInv(guarded, Apply(guarded, st, Process))
  {
    var next := Apply(guarded, st, Process);
    var id := st.log[offset].eventId;
    assert forall i :: 0 <= i < |st.ledger| ==> next.ledger[i] == st.ledger[i];
    if guarded {
      forall other
        ensures ProcessedId(next, other) <==> other == id || ProcessedId(st, other)
      {
        if ProcessedId(st, other) {
          var i :| 0 <= i < |st.ledger| && st.ledger[i].eventId == other;
          assert next.ledger[i].eventId == other;
        }
        assert next.ledger[|st.ledger|].eventId == id;
      }
    }
  }

  lemma ConfirmKeepsReservations(guarded: bool, st: State)
    requires ReservationInv(guarded, st)
    ensures ReservationInv(guarded, Apply(guarded, st, Confirm))
  {
    var next := Apply(guarded, st, Confirm);
    assert EventIds(next.ledger) == EventIds(st.ledger);
    forall id
      ensures ProcessedId(next, id) <==> ProcessedId(st, id)
    {
      if ProcessedId(st, id) {
        var i :| 0 <= i < |st.ledger| && st.ledger[i].eventId == id;
        assert next.ledger[i].eventId == id;
      }
    }
  }

  /** Every step, in any order, keeps the invariant: rewinds, crashes and lost acknowledgements included. */
  lemma StepKeepsInv(guarded: bool, st: State, step: Step)
    requires Inv(guarded, st)
    ensures Inv(guarded, Apply(guarded, st, step))
  {
    hide ReservationInv;
    match step
    case Process =>
      if st.phase.Fetched? && st.log[st.phase.offset].valid { ProcessKeepsReservations(guarded, st, st.phase.offset); }
      SameReservations(guarded, st, Apply(guarded, st, step));
    case Confirm => ConfirmKeepsReservations(guarded, st);
    case _ => SameReservations(guarded, st, Apply(guarded, st, step));
  }

  lemma SameReservations(guarded: bool, st: State, next: State)
    requires ReservationInv(guarded, st)
    ensures next.ledger == st.ledger && next.reservations == st.reservations ==> ReservationInv(guarded, next)
  {
    if next.ledger == st.ledger && next.reservations == st.reservations {
      assert forall id :: ProcessedId(next, id) <==> ProcessedId(st, id);
    }
  }

  /** One past the greatest offset in the ledger. */
  function Reached(ledger: seq<Delivery>): (reached: nat)
    ensures forall i :: 0 <= i < |ledger| ==> ledger[i].offset < reached
    ensures reached == 0 || exists i :: 0 <= i < |ledger| && ledger[i].offset == reached - 1
  {
    if ledger == [] then 0
    else
      var before, last := Reached(ledger[..|ledger| - 1]), ledger[|ledger| - 1];
      if before <= last.offset then last.offset + 1 else before
  }

  /** The processed offsets are an initial segment of the log. */
  ghost predicate Contiguous(st: State) { ProcessedBelow(st, Reached(st.ledger)) }

  /** The step is no rewind past the greatest offset in the ledger. */
  predicate StaysReached(st: State, step: Step)
  {
    step.Rewind? && Rewinds(st, step.target) ==> step.target <= Reached(st.ledger)
  }

  lemma ReachedIsExact(st: State, offset: nat)
    requires Contiguous(st)
    ensures ProcessedAt(st, offset) <==> offset < Reached(st.ledger)
    ensures ProcessedBelow(st, offset) <==> offset <= Reached(st.ledger)
  {
    if offset > 0 && ProcessedBelow(st, offset) {
      assert ProcessedAt(st, offset - 1);
    }
  }

  lemma ProcessedStays(guarded: bool, st: State, step: Step, offset: nat)
    ensures ProcessedAt(st, offset) ==> ProcessedAt(Apply(guarded, st, step), offset)
  {
    if ProcessedAt(st, offset) {
      var i :| 0 <= i < |st.ledger| && st.ledger[i].offset == offset;
      assert Apply(guarded, st, step).ledger[i].offset == offset;
    }
  }

  lemma ProcessedBelowStays(guarded: bool, st: State, step: Step, offset: nat)
    ensures ProcessedBelow(st, offset) ==> ProcessedBelow(Apply(guarded, st, step), offset)
  {
    hide ProcessedAt, Apply;
    forall below | 0 <= below < offset
      ensures ProcessedAt(st, below) ==> ProcessedAt(Apply(guarded, st, step), below)
    {
      ProcessedStays(guarded, st, step, below);
    }
  }

  /** A step keeps the log covered exactly when it is not a rewind past the greatest offset in the ledger, which
      the rewind bounds allow. */
  lemma StepKeepsCoverage(guarded: bool, st: State, step: Step)
    requires Inv(guarded, st) && Covered(st) && Contiguous(st)
    ensures Contiguous(Apply(guarded, st, step))
    ensures Covered(Apply(guarded, st, step)) <==> StaysReached(st, step)
  {
    StepKeepsContiguity(guarded, st, step);
    hide ReservationInv, ProcessedAt, LedgerInv, Reached, Contiguous;
    var next := Apply(guarded, st, step);
    ProcessedBelowStays(guarded, st, step, Resume(st.committed));
    match step
    case Rewind(target) =>
      if Rewinds(st, target) {
        SameLedger(st, next, target);
        ReachedIsExact(st, target);
      }
    case Commit => StoredIsProcessed(guarded, st, step);
    case CommitUnacknowledged => StoredIsProcessed(guarded, st, step);
    case _ =>
  }

  lemma StepKeepsContiguity(guarded: bool, st: State, step: Step)
    requires PhaseInv(st) && Covered(st) && Contiguous(st)
    ensures Contiguous(Apply(guarded, st, step))
  {
    var next := Apply(guarded, st, step);
    var reached, resume := Reached(st.ledger), Resume(st.committed);
    ProcessedBelowStays(guarded, st, step, reached);
    ProcessedBelowStays(guarded, st, step, resume);
    hide ProcessedBelow, Reached, Reserve, Rewinds, ValidEmptyInitialization, Holds;
    match step
    case Process =>
      if next.ledger != st.ledger {
        OneMoreIsContiguous(st, next, resume);
      }
    case Confirm => SameOffsetsReachTheSame(st.ledger, next.ledger);
    case _ => assert next.ledger == st.ledger;
  }

  lemma OneMoreIsContiguous(st: State, next: State, offset: nat)
    requires ProcessedBelow(next, Reached(st.ledger)) && ProcessedBelow(next, offset)
    requires |next.ledger| == |st.ledger| + 1 && next.ledger[..|st.ledger|] == st.ledger
    requires next.ledger[|st.ledger|].offset == offset
    ensures Contiguous(next)
  {
    hide ProcessedAt;
    LastIsProcessed(next);
  }

  lemma LastIsProcessed(st: State)
    requires st.ledger != []
    ensures ProcessedAt(st, st.ledger[|st.ledger| - 1].offset)
  {}

  lemma SameOffsetsReachTheSame(a: seq<Delivery>, b: seq<Delivery>)
    requires |a| == |b| && forall i :: 0 <= i < |a| ==> a[i].offset == b[i].offset
    ensures Reached(a) == Reached(b)
  {}

  lemma SameLedger(st: State, next: State, offset: nat)
    requires next.ledger == st.ledger
    ensures ProcessedBelow(next, offset) <==> ProcessedBelow(st, offset)
  {
    assert forall below: nat :: ProcessedAt(next, below) <==> ProcessedAt(st, below);
  }

  lemma StoredIsProcessed(guarded: bool, st: State, step: Step)
    requires PhaseInv(st)
    ensures st.phase.Stored? ==> ProcessedAt(Apply(guarded, st, step), st.phase.offset)
  {
    if st.phase.Stored? {
      assert ProcessedAt(st, st.phase.offset);
      ProcessedStays(guarded, st, step, st.phase.offset);
    }
  }

  /* ---------- runs ---------- */

  const INITIAL := State([], None, Down, [], [])

  function Run(guarded: bool, steps: seq<Step>): State
  {
    if steps == [] then INITIAL else Apply(guarded, Run(guarded, steps[..|steps| - 1]), steps[|steps| - 1])
  }

  lemma {:induction false} RunKeepsInv(guarded: bool, steps: seq<Step>)
    ensures Inv(guarded, Run(guarded, steps))
  {
    if steps == [] {
      assert EventIds([]) == [];
    } else {
      hide Inv;
      RunKeepsInv(guarded, steps[..|steps| - 1]);
      StepKeepsInv(guarded, Run(guarded, steps[..|steps| - 1]), steps[|steps| - 1]);
    }
  }

  /** The attempt id ends in -1. */
  ghost predicate FirstAttempt(attemptId: string) { exists prefix: string :: attemptId == prefix + "-1" }

  lemma FirstAttemptEnds(attemptId: string)
    ensures FirstAttempt(attemptId) <==> |attemptId| >= 2 && attemptId[|attemptId| - 2..] == "-1"
  {
    if |attemptId| >= 2 && attemptId[|attemptId| - 2..] == "-1" {
      assert attemptId == attemptId[..|attemptId| - 2] + "-1";
    }
  }

  /** One reservation per processed event id. */
  ghost predicate ReservedOnce(st: State)
  {
    Distinct(st.reservations) && forall id :: id in st.reservations <==> ProcessedId(st, id)
  }

  /** Over every run the baseline, and the flaky variant in its first attempt, reserve once for each processed event id;
      the defective variant, and the flaky one in its other attempts, reserve for every delivery. */
  lemma VariantsReserve(variant: string, attemptId: string, steps: seq<Step>)
    ensures var st := Run(GuardEnabled(variant, attemptId), steps);
            && (variant == "baseline" ==> ReservedOnce(st))
            && (variant == "candidate-r1" ==> st.reservations == EventIds(st.ledger))
            && (variant == "flaky-r1" && FirstAttempt(attemptId) ==> ReservedOnce(st))
            && (variant == "flaky-r1" && !FirstAttempt(attemptId) ==> st.reservations == EventIds(st.ledger))
  {
    hide Run;
    FirstAttemptEnds(attemptId);
    RunKeepsInv(GuardEnabled(variant, attemptId), steps);
    assert "baseline" != "candidate-r1" && "baseline" != "flaky-r1" && "candidate-r1" != "flaky-r1" by {
      assert "baseline"[0] != "candidate-r1"[0] && "baseline"[0] != "flaky-r1"[0] && "candidate-r1"[0] != "flaky-r1"[0];
    }
  }

  ghost predicate CoveredThroughout(guarded: bool, steps: seq<Step>)
  {
    forall k :: 0 <= k <= |steps| ==> Covered(Run(guarded, steps[..k]))
  }

  /** No rewind of the run goes past the greatest offset in the ledger. */
  ghost predicate AlwaysStaysReached(guarded: bool, steps: seq<Step>)
  {
    forall k :: 0 <= k < |steps| ==> StaysReached(Run(guarded, steps[..k]), steps[k])
  }

  /** Every record below the committed offset is processed at every point of a run exactly when no rewind of the
      run goes past the greatest offset in the ledger. */
  lemma {:induction false} CoveredExactlyWhenReached(guarded: bool, steps: seq<Step>)
    ensures CoveredThroughout(guarded, steps) <==> AlwaysStaysReached(guarded, steps)
    ensures CoveredThroughout(guarded, steps) ==> Contiguous(Run(guarded, steps))
  {
    NothingIsCovered(guarded);
    hide Covered, StaysReached, Run, Contiguous;
    if steps == [] {
      assert steps[..0] == [];
    } else {
      var last := |steps| - 1;
      var init := steps[..last];
      CoveredExactlyWhenReached(guarded, init);
      assert forall k :: 0 <= k <= last ==> init[..k] == steps[..k];
      assert steps[..|steps|] == steps;
      RunNext(guarded, steps);
      RunKeepsInv(guarded, init);
      assert CoveredThroughout(guarded, init) ==> Covered(Run(guarded, init)) by { assert init[..last] == init; }
      if CoveredThroughout(guarded, init) {
        StepKeepsCoverage(guarded, Run(guarded, init), steps[last]);
      }
      assert CoveredThroughout(guarded, steps) <==> CoveredThroughout(guarded, init) && Covered(Run(guarded, steps));
      assert AlwaysStaysReached(guarded, steps) <==>
             AlwaysStaysReached(guarded, init) && StaysReached(Run(guarded, init), steps[last]);
    }
  }

  lemma NothingIsCovered(guarded: bool)
    ensures Covered(Run(guarded, [])) && Contiguous(Run(guarded, []))
  {}

  lemma RunNext(guarded: bool, steps: seq<Step>)
    requires steps != []
    ensures Run(guarded, steps) == Apply(guarded, Run(guarded, steps[..|steps| - 1]), steps[|steps| - 1])
  {}

  /** The step is no rewind past the committed offset. */
  predicate GoesBack(st: State, step: Step)
  {
    step.Rewind? && Rewinds(st, step.target) ==> step.target <= st.committed.value
  }

  /** As long as every rewind goes to the committed offset or before it, as its name says, the log is covered at
      every point of the run. */
  lemma {:induction false} RewindingBackKeepsCoverage(guarded: bool, steps: seq<Step>)
    requires forall k :: 0 <= k < |steps| ==> GoesBack(Run(guarded, steps[..k]), steps[k])
    ensures CoveredThroughout(guarded, steps)
  {
    hide Run, Apply, Contiguous, Covered, StaysReached, GoesBack;
    CoveredExactlyWhenReached(guarded, steps);
    if steps != [] {
      var last := |steps| - 1;
      var init := steps[..last];
      assert forall k :: 0 <= k <= last ==> init[..k] == steps[..k];
      RewindingBackKeepsCoverage(guarded, init);
      CoveredExactlyWhenReached(guarded, init);
      assert Covered(Run(guarded, init)) by { assert init[..last] == init; }
      BackIsReached(Run(guarded, init), steps[last]);
      assert AlwaysStaysReached(guarded, steps);
    }
  }

  lemma BackIsReached(st: State, step: Step)
    requires Covered(st) && Contiguous(st) && GoesBack(st, step)
    ensures StaysReached(st, step)
  {
    hide Reached;
    ReachedIsExact(st, Resume(st.committed));
  }

  /** The rewind bounds accept an offset past records that no one processed: right after the group of an empty log
      is initialized and two records are published. */
  lemma ForwardRewindSkipsRecords(guarded: bool)
    ensures var run := [InitializeAtZero, Publish(Record("a", true)), Publish(Record("b", true)), Rewind(1)];
            && Rewinds(Run(guarded, run[..3]), 1)
            && Run(guarded, run).committed == Some(1) && !Covered(Run(guarded, run))
  {
    var a, b := Record("a", true), Record("b", true);
    var run := [InitializeAtZero, Publish(a), Publish(b), Rewind(1)];
    assert run[..0] == [] && run[..1] == [run[0]] && run[..2] == [run[0], run[1]] && run[..3] == [run[0], run[1], run[2]];
    assert run[..3][..2] == run[..2] && run[..2][..1] == run[..1] && run[..1][..0] == [];
    assert Run(guarded, run[..1]) == INITIAL.(committed := Some(0));
    assert Run(guarded, run[..2]) == State([a], Some(0), Down, [], []);
    assert Run(guarded, run[..3]) == State([a, b], Some(0), Down, [], []);
    assert !ProcessedAt(Run(guarded, run), 0);
  }

  /* ---------- redelivery ---------- */

  function RunFrom(guarded: bool, st: State, steps: seq<Step>): State
    decreases |steps|
  {
    if steps == [] then st else RunFrom(guarded, Apply(guarded, st, steps[0]), steps[1..])
  }

  /** The consumer loop without a crash, n times. */
  function Loop(n: nat): seq<Step>
  {
    if n == 0 then [] else [Poll, Process, Commit, Confirm] + Loop(n - 1)
  }

  /** The deliveries of the log from an offset on, each confirmed. */
  function Deliveries(log: seq<Record>, from: nat): seq<Delivery>
    requires from <= |log|
    decreases |log| - from
  {
    if from == |log| then [] else [Delivery(log[from].eventId, from, true)] + Deliveries(log, from + 1)
  }

  function ReserveAll(guarded: bool, reservations: seq<string>, log: seq<Record>, from: nat): seq<string>
    requires from <= |log|
    decreases |log| - from
  {
    if from == |log| then reservations
    else ReserveAll(guarded, Reserve(guarded, reservations, log[from].eventId), log, from + 1)
  }

  lemma OneDelivery(guarded: bool, st: State, rest: seq<Step>)
    requires st.phase.Idle? && st.phase.position < |st.log| && st.log[st.phase.position].valid
    ensures var p := st.phase.position;
            RunFrom(guarded, st, [Poll, Process, Commit, Confirm] + rest) ==
            RunFrom(guarded, State(st.log, Some(p + 1), Idle(p + 1), st.ledger + [Delivery(st.log[p].eventId, p, true)],
                                   Reserve(guarded, st.reservations, st.log[p].eventId)), rest)
  {
    hide Reserve;
    var steps := [Poll, Process, Commit, Confirm] + rest;
    var p := st.phase.position;
    var fetched := Apply(guarded, st, Poll);
    var stored := Apply(guarded, fetched, Process);
    var acknowledged := Apply(guarded, stored, Commit);
    var confirmed := Apply(guarded, acknowledged, Confirm);
    assert confirmed.ledger == st.ledger + [Delivery(st.log[p].eventId, p, true)];
    assert steps == [Poll] + ([Process] + ([Commit] + ([Confirm] + rest)));
    RunStep(guarded, st, Poll, [Process] + ([Commit] + ([Confirm] + rest)));
    RunStep(guarded, fetched, Process, [Commit] + ([Confirm] + rest));
    RunStep(guarded, stored, Commit, [Confirm] + rest);
    RunStep(guarded, acknowledged, Confirm, rest);
  }

  lemma RunStep(guarded: bool, st: State, step: Step, rest: seq<Step>)
    ensures RunFrom(guarded, st, [step] + rest) == RunFrom(guarded, Apply(guarded, st, step), rest)
  {
    assert ([step] + rest)[1..] == rest;
  }

  /** From its position an undisturbed consumer delivers the rest of the log, each record once and in order. */
  lemma {:induction false} LoopDelivers(guarded: bool, st: State)
    requires st.phase.Idle? && st.phase.position == Resume(st.committed) <= |st.log|
    requires forall k :: st.phase.position <= k < |st.log| ==> st.log[k].valid
    ensures var p := st.phase.position;
            RunFrom(guarded, st, Loop(|st.log| - p)) ==
            State(st.log, if p == |st.log| then st.committed else Some(|st.log|), Idle(|st.log|),
                  st.ledger + Deliveries(st.log, p), ReserveAll(guarded, st.reservations, st.log, p))
    decreases |st.log| - st.phase.position
  {
    var p, n := st.phase.position, |st.log| - st.phase.position;
    if n == 0 {
      assert st.ledger + [] == st.ledger;
    } else {
      var d := Delivery(st.log[p].eventId, p, true);
      var next := State(st.log, Some(p + 1), Idle(p + 1), st.ledger + [d],
                        Reserve(guarded, st.reservations, st.log[p].eventId));
      OneDelivery(guarded, st, Loop(n - 1));
      LoopDelivers(guarded, next);
      assert st.ledger + [d] + Deliveries(st.log, p + 1) == st.ledger + ([d] + Deliveries(st.log, p + 1));
    }
  }

  lemma {:induction false} ReserveAgain(reservations: seq<string>, log: seq<Record>, from: nat)
    requires from <= |log| && forall k :: from <= k < |log| ==> log[k].eventId in reservations
    ensures ReserveAll(true, reservations, log, from) == reservations
    decreases |log| - from
  {
    if from < |log| { ReserveAgain(reservations, log, from + 1); }
  }

  lemma {:induction false} ReserveEach(reservations: seq<string>, log: seq<Record>, from: nat)
    requires from <= |log|
    ensures ReserveAll(false, reservations, log, from) == reservations + EventIds(Deliveries(log, from))
    decreases |log| - from
  {
    var later := Deliveries(log, from);
    if from == |log| {
      assert reservations + EventIds([]) == reservations;
    } else {
      ReserveEach(reservations + [log[from].eventId], log, from + 1);
      assert EventIds(later) == [log[from].eventId] + EventIds(later[1..]);
    }
  }

  /** After a rewind of a stopped, caught-up consumer and a restart, exactly the records from the target on are
      delivered again, in order.  The guard leaves the reservations as they were; without it every delivery
      reserves again. */
  lemma RewindRedelivers(guarded: bool, st: State, target: nat)
    requires Inv(guarded, st) && Covered(st) && st.phase.Down? && st.committed == Some(|st.log|) && target < |st.log|
    ensures RunFrom(guarded, st, [Rewind(target), Start] + Loop(|st.log| - target)) ==
            State(st.log, Some(|st.log|), Idle(|st.log|), st.ledger + Deliveries(st.log, target),
                  if guarded then st.reservations else st.reservations + EventIds(Deliveries(st.log, target)))
  {
    var loop := Loop(|st.log| - target);
    var steps := [Rewind(target), Start] + loop;
    assert steps[1..] == [Start] + loop && steps[1..][1..] == loop;
    hide Loop;
    var restarted := State(st.log, Some(target), Idle(target), st.ledger, st.reservations);
    CoveredRecords(guarded, st);
    assert RunFrom(guarded, st, steps) == RunFrom(guarded, restarted, loop);
    LoopDelivers(guarded, restarted);
    if guarded { ReserveAgain(st.reservations, st.log, target); } else { ReserveEach(st.reservations, st.log, target); }
  }

  /** Every record of a covered, caught-up log is valid and, with the guard, reserved. */
  lemma CoveredRecords(guarded: bool, st: State)
    requires Inv(guarded, st) && Covered(st) && st.committed == Some(|st.log|)
    ensures forall k :: 0 <= k < |st.log| ==> st.log[k].valid && (guarded ==> st.log[k].eventId in st.reservations)
  {
    forall k | 0 <= k < |st.log|
      ensures st.log[k].valid && (guarded ==> st.log[k].eventId in st.reservations)
    {
      assert ProcessedAt(st, k);
      var i :| 0 <= i < |st.ledger| && st.ledger[i].offset == k;
      assert Delivered(st, st.ledger[i]);
      assert ProcessedId(st, st.log[k].eventId);
    }
  }
}
