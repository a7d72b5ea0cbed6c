/** The projector's database and the group's committed offset as the code updates them. */
module ProjectorStore {
  import opened Options
  import opened Projector

  /** The rows of the delivery ledger and of the reservations. */
  class Database {
    var ledger: seq<Delivery>
    var reservations: seq<string>

    constructor ()
      ensures ledger == [] && reservations == []
    {
      ledger, reservations := [], [];
    }

    method Exists(eventId: string) returns (found: bool)
      ensures found <==> eventId in reservations
    {
      for i := 0 to |reservations|
        invariant eventId !in reservations[..i]
      {
        if reservations[i] == eventId {
          return true;
        }
      }
      found := false;
    }

    /** The transaction: the delivery is always recorded, the reservation only where the guard allows it. */
    method ProcessRecord(record: Record, offset: nat, variant: string, attemptId: string) returns (ok: bool, delivery: nat)
      modifies this
      ensures ok <==> record.valid
      ensures ok ==> delivery == |old(ledger)| && ledger == old(ledger) + [Delivery(record.eventId, offset, false)]
      ensures ok ==> reservations == Reserve(GuardEnabled(variant, attemptId), old(reservations), record.eventId)
      ensures !ok ==> ledger == old(ledger) && reservations == old(reservations)
      ensures ok && variant == "candidate-r1" ==> reservations == old(reservations) + [record.eventId]
      ensures ok && record.eventId !in old(reservations) ==> reservations == old(reservations) + [record.eventId]
      ensures ok && variant == "baseline" && record.eventId in old(reservations) ==> reservations == old(reservations)
      ensures ok && variant == "flaky-r1" && record.eventId in old(reservations) ==>
                (reservations == old(reservations) <==> FirstAttempt(attemptId))
    {
      FirstAttemptEnds(attemptId);
      assert "candidate-r1"[0] != "baseline"[0] && "candidate-r1"[0] != "flaky-r1"[0];
      if !record.valid {
        return false, 0;
      }
      delivery := |ledger|;
      ledger := ledger + [Delivery(record.eventId, offset, false)];
      ok := true;
      if GuardEnabled(variant, attemptId) {
        var found := Exists(record.eventId);
        if found {
          return;
        }
      }
      reservations := reservations + [record.eventId];
    }

    method Confirm(delivery: nat)
      requires delivery < |ledger|
      modifies this`ledger
      ensures ledger == old(ledger)[delivery := old(ledger)[delivery].(confirmed := true)]
    {
      ledger := ledger[delivery := ledger[delivery].(confirmed := true)];
    }
  }

  /** The broker's record of a consumer group on one partition whose log starts at offset 0. */
  class Group {
    var committed: Option<nat>
    var members: nat
    var log: seq<Record>

    constructor ()
      ensures committed == None && members == 0 && log == []
    {
      committed, members, log := None, 0, [];
    }

    /** Refused while the group has members, without a committed offset, or outside the log; otherwise the committed
        offset is the target. */
    method Rewind(requested: int) returns (ok: bool)
      modifies this`committed
      ensures ok <==> members == 0 && old(committed).Some? && 0 <= requested < |log|
      ensures committed == if ok then Some(requested) else old(committed)
      ensures forall st: State :: st.log == log && (members == 0 <==> st.phase.Down?) && st.committed == old(committed) ==>
                  Apply(true, st, Step.Rewind(requested)) == st.(committed := committed)
    {
      if members != 0 || committed.None? || !ValidRewindBounds(requested, 0, |log|) {
        return false;
      }
      committed := Some(requested);
      ok := true;
    }

    method InitializeEmptyGroupAtZero() returns (ok: bool)
      modifies this`committed
      ensures ok <==> members == 0 && log == []
      ensures committed == if ok then Some(0) else old(committed)
      ensures forall st: State :: st.log == log && (members == 0 <==> st.phase.Down?) && st.committed == old(committed) ==>
                Apply(true, st, InitializeAtZero) == st.(committed := committed)
    {
      if members != 0 || !ValidEmptyInitialization(0, |log|) {
        return false;
      }
      committed := Some(0);
      ok := true;
    }
  }

  /** Where a turn of the loop fails, if anywhere.  A transaction that fails stores nothing; a commit that fails may
      have reached the broker. */
  datatype Fault = NoFault | TransactionFails | CommitFails | CommitUnanswered | ConfirmationFails

  /** The steps of a turn; a failure ends the process. */
  function Turn(fault: Fault): seq<Step>
  {
    match fault
    case NoFault => [Poll, Process, Commit, Step.Confirm]
    case TransactionFails => [Poll, Crash]
    case CommitFails => [Poll, Process, Crash]
    case CommitUnanswered => [Poll, Process, CommitUnacknowledged]
    case ConfirmationFails => [Poll, Process, Commit, Crash]
  }

  /** One turn of the poll, process and commit loop on what it fetched.  The process ends when it is not ok. */
  method ConsumeOne(database: Database, group: Group, variant: string, attemptId: string, position: nat, fault: Fault)
    returns (ok: bool)
    requires position == Resume(group.committed) < |group.log|
    modifies database, group`committed
    ensures ok <==> group.log[position].valid && fault.NoFault?
    ensures var guarded := GuardEnabled(variant, attemptId);
            var before := State(group.log, old(group.committed), Idle(position), old(database.ledger),
                                old(database.reservations));
            RunFrom(guarded, before, Turn(fault)) ==
            State(group.log, group.committed, if ok then Idle(position + 1) else Down, database.ledger, database.reservations)
  {
    var guarded := GuardEnabled(variant, attemptId);
    ghost var before := State(group.log, group.committed, Idle(position), database.ledger, database.reservations);
    TurnByStep(guarded, before, fault);
    if fault.TransactionFails? {
      return false;
    }
    var delivery;
    ok, delivery := database.ProcessRecord(group.log[position], position, variant, attemptId);
    if !ok {
      return;
    }
    if fault.CommitFails? {
      return false;
    }
    group.committed := Some(position + 1);
    if fault.CommitUnanswered? || fault.ConfirmationFails? {
      return false;
    }
    database.Confirm(delivery);
  }

  /** What the steps of a turn come to. */
  lemma TurnByStep(guarded: bool, st: State, fault: Fault)
    requires st.phase.Idle? && st.phase.position < |st.log|
    ensures var p := st.phase.position;
            var record := st.log[p];
            var stored := st.(phase := Down, ledger := st.ledger + [Delivery(record.eventId, p, false)],
                              reservations := Reserve(guarded, st.reservations, record.eventId));
            var committed := stored.(committed := Some(p + 1));
            RunFrom(guarded, st, Turn(fault)) ==
            if fault.TransactionFails? || !record.valid then st.(phase := Down)
            else if fault.CommitFails? then stored
            else if fault.CommitUnanswered? || fault.ConfirmationFails? then committed
            else committed.(phase := Idle(p + 1), ledger := st.ledger + [Delivery(record.eventId, p, true)])
  {
    hide Reserve;
    var steps := Turn(fault);
    var p := st.phase.position;
    var fetched := Apply(guarded, st, Poll);
    var second := Apply(guarded, fetched, steps[1]);
    assert steps == [Poll] + steps[1..] && steps[1..] == [steps[1]] + steps[2..];
    RunStep(guarded, st, Poll, steps[1..]);
    RunStep(guarded, fetched, steps[1], steps[2..]);
    if |steps| > 2 {
      assert steps[2..] == [steps[2]] + steps[3..];
      RunStep(guarded, second, steps[2], steps[3..]);
    }
    if |steps| > 3 {
      assert steps[3..] == [steps[3]] + [];
      RunStep(guarded, Apply(guarded, second, steps[2]), steps[3], []);
    }
    var ledger := st.ledger + [Delivery(st.log[p].eventId, p, false)];
    assert ledger[|st.ledger| := ledger[|st.ledger|].(confirmed := true)] ==
           st.ledger + [Delivery(st.log[p].eventId, p, true)];
  }
}
