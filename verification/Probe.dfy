/** The probe object: its mutex-guarded fields, and the critical sections of its methods proved to be the
    steps of the gate state machine. */
module Probe {
  import opened Cardinality
  import opened Gates
  import opened Options

  type Token = nat

  /** What arming answers: conflict for another instance, bad request unless the tuple is whole, of this service, with a
      declared name and a positive occurrence, conflict while a gate with the tuple waits, and otherwise created. */
  ghost predicate ArmAnswer(d: Declaration, gates: map<Handle, Gate>, instance: string, c: Checkpoint, response: Response)
  {
    var whole := && c.service == d.service && c.name in d.checkpoints && c.name != "" && c.eventId != "" && c.stepId != ""
                 && c.occurrence > 0;
    var free := forall h :: h in gates && gates[h].checkpoint == c ==> gates[h].status == Released || gates[h].status == Cancelled;
    && (response == Created <==> instance == d.instanceId && whole && free)
    && (response == BadRequest <==> instance == d.instanceId && !whole)
    && (response == Conflict <==> instance != d.instanceId || (whole && !free))
  }

  lemma ArmIsAnswered(d: Declaration, s: State, instance: string, c: Checkpoint)
    ensures ArmAnswer(d, s.gates, instance, c, ArmResponse(d, s, instance, c))
  {
    assert AlreadyActive(s.gates, c) <==> exists h :: h in s.gates && s.gates[h].checkpoint == c && Active(s.gates[h]);
  }

  class Probe {
    const declaration: Declaration
    var gates: map<Handle, Gate>
    var occurrences: map<string, int>
    var inFlight: int
    /** One entry per completion function handed out: whether its body has run. */
    var finished: map<Token, bool>
    // The service's own goroutines, seen from outside.
    ghost var parked: map<HandlerId, Handle>
    ghost var outcomes: map<HandlerId, Outcome>
    ghost var entries: seq<Checkpoint>

    ghost function Abs(): State
      reads this
    {
      State(gates, occurrences, parked, outcomes, entries)
    }

    ghost function OpenWork(): set<Token>
      reads this
    {
      set t | t in finished && !finished[t]
    }

    ghost predicate Valid()
      reads this
    {
      Inv(Abs()) && inFlight == |OpenWork()|
    }

    constructor (declaration: Declaration)
      ensures Valid() && Abs() == INITIAL && inFlight == 0 && finished == map[]
      ensures this.declaration == declaration
    {
      this.declaration := declaration;
      gates, occurrences, inFlight, finished := map[], map[], 0, map[];
      parked, outcomes, entries := map[], map[], [];
    }

    /** The scan runs over an unordered map; the invariant makes its result unique. */
    method FindGateLocked(c: Checkpoint) returns (found: Option<Handle>)
      requires OneActiveGatePerTuple(gates)
      ensures found == FindGate(gates, c)
    {
      var remaining := gates.Keys;
      while remaining != {}
        invariant remaining <= gates.Keys
        invariant forall h :: h in gates.Keys - remaining ==> !Matches(gates, h, c)
        decreases |remaining|
      {
        var h :| h in remaining;
        if gates[h].status == Armed && gates[h].checkpoint == c {
          assert Matches(gates, h, c) && Matches(gates, FindGate(gates, c).value, c);
          return Some(h);
        }
        remaining := remaining - {h};
      }
      found := None;
      assert forall h :: !Matches(gates, h, c);
    }

    /** The scan for a gate with the tuple that is still waiting. */
    method IsActive(c: Checkpoint) returns (active: bool)
      ensures active <==> AlreadyActive(gates, c)
    {
      var remaining := gates.Keys;
      while remaining != {}
        invariant remaining <= gates.Keys
        invariant forall h :: h in gates.Keys - remaining ==> !(gates[h].checkpoint == c && Active(gates[h]))
        decreases |remaining|
      {
        var h :| h in remaining;
        if gates[h].checkpoint == c && (gates[h].status == Armed || gates[h].status == Blocked) {
          return true;
        }
        remaining := remaining - {h};
      }
      active := false;
    }

    method ArmCheckpoint(instance: string, c: Checkpoint, handle: Handle) returns (response: Response)
      requires Valid() && handle !in gates
      modifies this
      ensures Valid()
      ensures Abs() == ArmStep(declaration, old(Abs()), instance, c, handle)
      ensures response == ArmResponse(declaration, old(Abs()), instance, c)
      ensures ArmAnswer(declaration, old(gates), instance, c, response)
      ensures gates == if response == Created then old(gates)[handle := Gate(c, Armed, 0)] else old(gates)
      ensures inFlight == old(inFlight) && finished == old(finished)
    {
      StepKeepsInv(declaration, Abs(), Arm(instance, c, handle));
      ArmIsAnswered(declaration, Abs(), instance, c);
      hide Inv, ValidFor, ArmAnswer;
      if instance != declaration.instanceId {
        return Conflict;
      }
      if !ValidFor(declaration, c) {
        return BadRequest;
      }
      var active := IsActive(c);
      if active {
        return Conflict;
      }
      gates := gates[handle := Gate(c, Armed, 0)];
      response := Created;
    }

    /** The locked section of `Enter`.  A blocked handler is left parked on the selected gate. */
    method Enter(id: HandlerId, c: Checkpoint) returns (selected: Option<Handle>)
      requires Valid() && id !in parked && id !in outcomes
      modifies this
      ensures Valid()
      ensures Abs() == EnterStep(old(Abs()), id, c)
      ensures selected.Some? <==> id in parked
      ensures selected.Some? ==> parked[id] == selected.value
      ensures inFlight == old(inFlight) && finished == old(finished)
      ensures if c.name == "" || c.service == "" || c.eventId == "" || c.stepId == "" then
                occurrences == old(occurrences) && gates == old(gates) && outcomes == old(outcomes)[id := Incomplete]
              else
                var base := c.service + "\0" + c.name + "\0" + c.eventId + "\0" + c.stepId;
                var actual := (if base in old(occurrences) then old(occurrences)[base] else 0) + 1;
                && occurrences == old(occurrences)[base := actual]
                && (c.occurrence != 0 && c.occurrence != actual ==>
                      gates == old(gates) && outcomes == old(outcomes)[id := WrongOccurrence])
                && (c.occurrence == 0 || c.occurrence == actual ==>
                      if selected.Some? then
                        && selected.value in old(gates) && outcomes == old(outcomes)
                        && old(gates)[selected.value] == Gate(c.(occurrence := actual), Armed, old(gates)[selected.value].closes)
                        && gates == old(gates)[selected.value := old(gates)[selected.value].(status := Blocked)]
                      else
                        && gates == old(gates) && outcomes == old(outcomes)[id := NotArmed]
                        && forall h :: h in gates && gates[h].status == Armed ==> gates[h].checkpoint != c.(occurrence := actual))
    {
      hide Base, Inv, OneActiveGatePerTuple, Enabled;
      assert Base(c) == c.service + "\0" + c.name + "\0" + c.eventId + "\0" + c.stepId by { BaseJoins(c); }
      EnterKeepsInv(declaration, Abs(), id, c);
      selected := None;
      if c.name == "" || c.service == "" || c.eventId == "" || c.stepId == "" {
        outcomes := outcomes[id := Incomplete];
        return;
      }
      var base := Base(c);
      var actual := (if base in occurrences then occurrences[base] else 0) + 1;
      occurrences := occurrences[base := actual];
      entries := entries + [c];
      var exact := c.(occurrence := if c.occurrence == 0 then actual else c.occurrence);
      if exact.occurrence != actual {
        outcomes := outcomes[id := WrongOccurrence];
        return;
      }
      selected := FindGateLocked(exact);
      if selected.None? {
        assert forall h :: h in gates && gates[h].status == Armed && gates[h].checkpoint == exact ==> Matches(gates, h, exact);
        outcomes := outcomes[id := NotArmed];
        return;
      }
      gates := gates[selected.value := gates[selected.value].(status := Blocked)];
      parked := parked[id := selected.value];
    }

    /** The section a parked handler runs when its context is done. */
    method CancelHandler(id: HandlerId, selected: Handle)
      requires Valid() && id in parked && parked[id] == selected
      modifies this
      ensures Valid()
      ensures Abs() == CancelStep(old(Abs()), id)
      ensures inFlight == old(inFlight) && finished == old(finished)
    {
      hide Inv;
      CancelKeepsInv(declaration, Abs(), id);
      if gates[selected].status == Blocked {
        gates := gates[selected := gates[selected].(status := Cancelled)];
      }
      parked := parked - {id};
      outcomes := outcomes[id := Interrupted(selected)];
    }

    method ReleaseCheckpoint(instance: string, handle: Handle, c: Checkpoint) returns (response: Response)
      requires Valid()
      modifies this
      ensures Valid()
      ensures Abs() == ReleaseStep(declaration, old(Abs()), instance, handle, c)
      ensures response == ReleaseResponse(declaration, old(Abs()), instance, handle, c)
      ensures response == BadRequest <==> instance == declaration.instanceId && handle == ""
      ensures response == NotFound <==>
                instance == declaration.instanceId && handle != ""
                && (handle in old(gates) ==> old(gates)[handle].checkpoint != c)
      ensures response == ReleasedNow <==>
                && instance == declaration.instanceId && handle != "" && handle in old(gates)
                && old(gates)[handle].checkpoint == c && old(gates)[handle].status == Blocked
      ensures response == ReleasedNow || response == BadRequest || response == NotFound || response == Conflict
      ensures gates == if response == ReleasedNow
                       then old(gates)[handle := Gate(c, Released, old(gates)[handle].closes + 1)] else old(gates)
      ensures inFlight == old(inFlight) && finished == old(finished)
    {
      hide Inv;
      ReleaseKeepsInv(declaration, Abs(), instance, handle, c);
      if instance != declaration.instanceId {
        return Conflict;
      }
      if handle == "" {
        return BadRequest;
      }
      if handle !in gates || gates[handle].checkpoint != c {
        return NotFound;
      }
      var gate := gates[handle];
      if gate.status != Blocked {
        return Conflict;
      }
      gates := gates[handle := gate.(status := Released, closes := gate.closes + 1)];
      response := ReleasedNow;
    }

    /** Starts one unit of work; the token stands for the completion function that is returned. */
    method BeginWork(token: Token)
      requires Valid() && token !in finished
      modifies this
      ensures Valid() && Abs() == old(Abs())
      ensures OpenWork() == old(OpenWork()) + {token} && inFlight == old(inFlight) + 1
    {
      inFlight := inFlight + 1;
      finished := finished[token := false];
      assert OpenWork() == old(OpenWork()) + {token};
    }

    /** The completion function: only its first call counts, and the guard against a negative counter
        never takes effect. */
    method Done(token: Token)
      requires Valid() && token in finished
      modifies this
      ensures Valid() && Abs() == old(Abs())
      ensures OpenWork() == old(OpenWork()) - {token}
      ensures inFlight == if token in old(OpenWork()) then old(inFlight) - 1 else old(inFlight)
    {
      if !finished[token] {
        finished := finished[token := true];
        assert OpenWork() == old(OpenWork()) - {token};
        if inFlight > 0 {
          inFlight := inFlight - 1;
        }
      }
    }

    method GetQuiescence() returns (working: int, armed: nat, blocked: nat)
      requires Valid()
      ensures working == |OpenWork()|
      ensures armed == |WithStatus(Abs(), Armed)| && blocked == |WithStatus(Abs(), Blocked)|
    {
      hide Inv;
      working, armed, blocked := inFlight, 0, 0;
      var remaining := gates.Keys;
      ghost var allArmed, allBlocked := WithStatus(Abs(), Armed), WithStatus(Abs(), Blocked);
      assert allArmed - remaining == {} && allBlocked - remaining == {};
      while remaining != {}
        invariant remaining <= gates.Keys
        invariant armed == |allArmed - remaining| && blocked == |allBlocked - remaining|
        decreases |remaining|
      {
        var h :| h in remaining;
        VisitOne(allArmed, remaining, h);
        VisitOne(allBlocked, remaining, h);
        if gates[h].status == Armed {
          armed := armed + 1;
        } else if gates[h].status == Blocked {
          blocked := blocked + 1;
        }
        remaining := remaining - {h};
      }
      assert allArmed - remaining == allArmed && allBlocked - remaining == allBlocked;
    }
  }
}
