/** Checkpoint gates as a state machine.  One step is one critical section of the probe's mutex, or one
    return of a parked handler; every interleaving of arming, entering, cancelling and releasing is a
    sequence of such steps. */
module Gates {
  import opened Options

  type Handle = string
  type HandlerId = nat

  datatype Checkpoint = Checkpoint(name: string, service: string, eventId: string, stepId: string, occurrence: int)

  datatype Status = Armed | Blocked | Cancelled | Released

  /** A gate and how often its release channel has been closed. */
  datatype Gate = Gate(checkpoint: Checkpoint, status: Status, closes: nat)

  /** How an `Enter` call came back. */
  datatype Outcome =
    | Incomplete
    | WrongOccurrence
    | NotArmed
    | Resumed(gate: Handle)
    | Interrupted(gate: Handle)

  datatype State = State(
    gates: map<Handle, Gate>,
    occurrences: map<string, int>,
    parked: map<HandlerId, Handle>,
    outcomes: map<HandlerId, Outcome>,
    entries: seq<Checkpoint>)

  datatype Declaration = Declaration(instanceId: string, service: string, checkpoints: set<string>)

  datatype Response =
    | Created
    | ReleasedNow
    | BadRequest
    | NotFound
    | Conflict

  const NUL: string := "\0"

  function Base(c: Checkpoint): string
  {
    c.service + NUL + c.name + NUL + c.eventId + NUL + c.stepId
  }

  lemma BaseJoins(c: Checkpoint)
    ensures Base(c) == c.service + "\0" + c.name + "\0" + c.eventId + "\0" + c.stepId
  {}

  function Count(occurrences: map<string, int>, base: string): int
  {
    if base in occurrences then occurrences[base] else 0
  }

  predicate Complete(c: Checkpoint)
  {
    c.name != "" && c.service != "" && c.eventId != "" && c.stepId != ""
  }

  predicate Active(g: Gate) { g.status == Armed || g.status == Blocked }

  predicate Matches(gates: map<Handle, Gate>, h: Handle, c: Checkpoint)
  {
    h in gates && gates[h].status == Armed && gates[h].checkpoint == c
  }

  ghost function FindGate(gates: map<Handle, Gate>, c: Checkpoint): (found: Option<Handle>)
    ensures found.Some? ==> Matches(gates, found.value, c)
    ensures found.None? ==> forall h :: !Matches(gates, h, c)
  {
    if h :| Matches(gates, h, c) then Some(h) else None
  }

  predicate ValidFor(d: Declaration, c: Checkpoint)
  {
    c.service == d.service && c.name != "" && c.eventId != "" && c.stepId != "" && c.occurrence >= 1
    && c.name in d.checkpoints
  }

  ghost predicate AlreadyActive(gates: map<Handle, Gate>, c: Checkpoint)
  {
    exists h :: h in gates && gates[h].checkpoint == c && Active(gates[h])
  }

  /* ---------- steps ---------- */

  ghost function ArmResponse(d: Declaration, s: State, instance: string, c: Checkpoint): Response
  {
    if instance != d.instanceId then Conflict
    else if !ValidFor(d, c) then BadRequest
    else if AlreadyActive(s.gates, c) then Conflict
    else Created
  }

  ghost function ArmStep(d: Declaration, s: State, instance: string, c: Checkpoint, handle: Handle): State
  {
    if ArmResponse(d, s, instance, c) == Created
    then s.(gates := s.gates[handle := Gate(c, Armed, 0)])
    else s
  }

  function Actual(s: State, c: Checkpoint): int { Count(s.occurrences, Base(c)) + 1 }

  /** The tuple an `Enter` call stands for: occurrence 0 means the current one. */
  function Exact(s: State, c: Checkpoint): Checkpoint
  {
    c.(occurrence := if c.occurrence == 0 then Actual(s, c) else c.occurrence)
  }

  function Counted(s: State, c: Checkpoint): State
  {
    s.(occurrences := s.occurrences[Base(c) := Actual(s, c)], entries := s.entries + [c])
  }

  /** Block this handler on an armed gate. */
  function Block(s: State, id: HandlerId, h: Handle): State
    requires h in s.gates
  {
    s.(gates := s.gates[h := s.gates[h].(status := Blocked)], parked := s.parked[id := h])
  }

  function Return(s: State, id: HandlerId, r: Outcome): State { s.(outcomes := s.outcomes[id := r]) }

  /** The locked section of `Enter`: count the occurrence, then block on the exact armed gate if there
      is one.  A call whose explicit occurrence does not match has been counted all the same. */
  ghost function EnterStep(s: State, id: HandlerId, c: Checkpoint): State
  {
    if !Complete(c) then Return(s, id, Incomplete)
    else if Exact(s, c).occurrence != Actual(s, c) then Return(Counted(s, c), id, WrongOccurrence)
    else
      match FindGate(s.gates, Exact(s, c))
      case None => Return(Counted(s, c), id, NotArmed)
      case Some(h) => Block(Counted(s, c), id, h)
  }

  lemma BaseIgnoresOccurrence(c: Checkpoint, n: int)
    ensures Base(c.(occurrence := n)) == Base(c)
    ensures Complete(c.(occurrence := n)) == Complete(c)
  {}

  /** The context of a parked handler is done: the gate is cancelled unless it was released first, and
      the handler returns the context's error in both cases. */
  function CancelStep(s: State, id: HandlerId): State
    requires id in s.parked && s.parked[id] in s.gates
  {
    var h := s.parked[id];
    var left := s.(parked := s.parked - {id}, outcomes := s.outcomes[id := Interrupted(h)]);
    if s.gates[h].status == Blocked
    then left.(gates := s.gates[h := s.gates[h].(status := Cancelled)])
    else left
  }

  /** A parked handler sees its release channel closed. */
  function WakeStep(s: State, id: HandlerId): State
    requires id in s.parked
  {
    s.(parked := s.parked - {id}, outcomes := s.outcomes[id := Resumed(s.parked[id])])
  }

  function ReleaseResponse(d: Declaration, s: State, instance: string, handle: Handle, c: Checkpoint): Response
  {
    if instance != d.instanceId then Conflict
    else if handle == "" then BadRequest
    else if handle !in s.gates || s.gates[handle].checkpoint != c then NotFound
    else if s.gates[handle].status != Blocked then Conflict
    else ReleasedNow
  }

  function ReleaseStep(d: Declaration, s: State, instance: string, handle: Handle, c: Checkpoint): State
  {
    if ReleaseResponse(d, s, instance, handle, c) == ReleasedNow
    then
      var g := s.gates[handle];
      s.(gates := s.gates[handle := g.(status := Released, closes := g.closes + 1)])
    else s
  }

  datatype Action =
    | Arm(instance: string, checkpoint: Checkpoint, handle: Handle)
    | Enter(id: HandlerId, checkpoint: Checkpoint)
    | Cancel(id: HandlerId)
    | Wake(id: HandlerId)
    | Release(instance: string, handle: Handle, checkpoint: Checkpoint)

  /** Handles and handler identities are fresh when they are created; a handler wakes only
      on a closed channel. */
  predicate Enabled(s: State, a: Action)
  {
    match a
    case Arm(_, _, handle) => handle !in s.gates
    case Enter(id, _) => id !in s.parked && id !in s.outcomes
    case Cancel(id) => id in s.parked && s.parked[id] in s.gates
    case Wake(id) => id in s.parked && s.parked[id] in s.gates && s.gates[s.parked[id]].closes > 0
    case Release(_, _, _) => true
  }

  ghost function Next(d: Declaration, s: State, a: Action): State
    requires Enabled(s, a)
  {
    match a
    case Arm(instance, c, handle) => ArmStep(d, s, instance, c, handle)
    case Enter(id, c) => EnterStep(s, id, c)
    case Cancel(id) => CancelStep(s, id)
    case Wake(id) => WakeStep(s, id)
    case Release(instance, handle, c) => ReleaseStep(d, s, instance, handle, c)
  }

  const INITIAL: State := State(map[], map[], map[], map[], [])

  ghost predicate IsRun(d: Declaration, s: State, actions: seq<Action>)
    decreases |actions|
  {
    actions == [] || (Enabled(s, actions[0]) && IsRun(d, Next(d, s, actions[0]), actions[1..]))
  }

  ghost function After(d: Declaration, s: State, actions: seq<Action>): State
    requires IsRun(d, s, actions)
    decreases |actions|
  {
    if actions == [] then s else After(d, Next(d, s, actions[0]), actions[1..])
  }

  /* ---------- the invariant ---------- */

  /** The gate this handler has ever blocked on. */
  predicate BlockedOn(s: State, id: HandlerId, h: Handle)
  {
    || (id in s.parked && s.parked[id] == h)
    || (id in s.outcomes && (s.outcomes[id] == Resumed(h) || s.outcomes[id] == Interrupted(h)))
  }

  ghost predicate OneActiveGatePerTuple(gates: map<Handle, Gate>)
  {
    forall h, k :: h in gates && k in gates && h != k && Active(gates[h]) && Active(gates[k]) ==>
      gates[h].checkpoint != gates[k].checkpoint
  }

  ghost predicate ReachedGatesAreCounted(s: State)
  {
    forall h :: h in s.gates && s.gates[h].status != Armed ==>
      s.gates[h].checkpoint.occurrence <= Count(s.occurrences, Base(s.gates[h].checkpoint))
  }

  ghost predicate BlockedHandlersHaveGates(s: State)
  {
    forall id, h :: BlockedOn(s, id, h) ==> h in s.gates && s.gates[h].status != Armed
  }

  ghost predicate OneHandlerPerTuple(s: State)
  {
    forall i, h, j, k ::
      (BlockedOn(s, i, h) && BlockedOn(s, j, k) && h in s.gates && k in s.gates
       && s.gates[h].checkpoint == s.gates[k].checkpoint) ==> i == j && h == k
  }

  ghost predicate ChannelsFollowStatus(s: State)
  {
    forall h :: h in s.gates ==> s.gates[h].closes == if s.gates[h].status == Released then 1 else 0
  }

  ghost predicate ResumedMeansReleased(s: State)
  {
    forall id, h :: id in s.outcomes && s.outcomes[id] == Resumed(h) ==> h in s.gates && s.gates[h].status == Released
  }

  ghost predicate ParkedMeansWaiting(s: State)
  {
    && (forall id :: id in s.parked ==> id !in s.outcomes)
    && (forall id :: id in s.parked ==> s.parked[id] in s.gates)
    && (forall id :: id in s.parked ==> s.gates[s.parked[id]].status in {Blocked, Released})
  }

  ghost predicate OneHandlerPerGate(s: State)
  {
    forall i, j :: i in s.parked && j in s.parked && s.parked[i] == s.parked[j] ==> i == j
  }

  ghost predicate BlockedGatesHaveHandlers(s: State)
  {
    forall h :: h in s.gates && s.gates[h].status == Blocked ==> h in s.parked.Values
  }

  ghost predicate BlockedInv(s: State)
  {
    BlockedHandlersHaveGates(s) && OneHandlerPerTuple(s)
  }

  ghost predicate GateInv(s: State)
  {
    && OneActiveGatePerTuple(s.gates)
    && ReachedGatesAreCounted(s)
    && ChannelsFollowStatus(s)
    && ResumedMeansReleased(s)
    && ParkedMeansWaiting(s)
    && OneHandlerPerGate(s)
    && BlockedGatesHaveHandlers(s)
  }

  ghost predicate Inv(s: State)
  {
    BlockedInv(s) && GateInv(s)
  }

  /* ---------- every step keeps each part ---------- */

  lemma KeepsOneActiveGatePerTuple(d: Declaration, s: State, a: Action)
    requires OneActiveGatePerTuple(s.gates) && Enabled(s, a)
    ensures OneActiveGatePerTuple(Next(d, s, a).gates)
  {
    hide Base, Count, Complete, ValidFor;
  }

  lemma KeepsReachedGatesAreCounted(d: Declaration, s: State, a: Action)
    requires ReachedGatesAreCounted(s) && Enabled(s, a)
    ensures ReachedGatesAreCounted(Next(d, s, a))
  {
    hide Base;
    if a.Enter? {
      BaseIgnoresOccurrence(a.checkpoint, Exact(s, a.checkpoint).occurrence);
    }
  }

  lemma KeepsChannelsFollowStatus(d: Declaration, s: State, a: Action)
    requires ChannelsFollowStatus(s) && Enabled(s, a)
    ensures ChannelsFollowStatus(Next(d, s, a))
  {
    hide Base, Count, Complete, ValidFor;
  }

  lemma KeepsResumedMeansReleased(d: Declaration, s: State, a: Action)
    requires ResumedMeansReleased(s) && ChannelsFollowStatus(s) && Enabled(s, a)
    ensures ResumedMeansReleased(Next(d, s, a))
  {
    hide Base, Count, Complete, ValidFor;
  }

  lemma KeepsParkedMeansWaiting(d: Declaration, s: State, a: Action)
    requires ParkedMeansWaiting(s) && OneHandlerPerGate(s) && Enabled(s, a)
    ensures ParkedMeansWaiting(Next(d, s, a))
  {
    hide Base, Count, Complete, ValidFor;
  }

  lemma KeepsOneHandlerPerGate(d: Declaration, s: State, a: Action)
    requires ParkedMeansWaiting(s) && OneHandlerPerGate(s) && Enabled(s, a)
    ensures OneHandlerPerGate(Next(d, s, a))
  {
    hide Base, Count, Complete, ValidFor;
  }

  lemma KeepsBlockedGatesHaveHandlers(d: Declaration, s: State, a: Action)
    requires BlockedGatesHaveHandlers(s) && ParkedMeansWaiting(s) && ChannelsFollowStatus(s) && Enabled(s, a)
    ensures BlockedGatesHaveHandlers(Next(d, s, a))
  {
    hide Base, Count, Complete, ValidFor;
    var t := Next(d, s, a);
    forall k | k in t.gates && t.gates[k].status == Blocked
      ensures k in t.parked.Values
    {
      if k in s.gates && s.gates[k].status == Blocked {
        StillParked(d, s, a, k);
      } else {
        assert t.parked[a.id] == k;
      }
    }
  }

  lemma StillParked(d: Declaration, s: State, a: Action, k: Handle)
    requires ParkedMeansWaiting(s) && ChannelsFollowStatus(s) && Enabled(s, a)
    requires k in s.gates && s.gates[k].status == Blocked && k in s.parked.Values
    requires k in Next(d, s, a).gates && Next(d, s, a).gates[k].status == Blocked
    ensures k in Next(d, s, a).parked.Values
  {
    hide Base, Count, Complete, ValidFor;
    var i :| i in s.parked && s.parked[i] == k;
    assert i in Next(d, s, a).parked && Next(d, s, a).parked[i] == k;
  }

  /** A step that blocks no further handler, keeps the gates' tuples and moves no gate back to armed
      keeps the facts about blocked handlers. */
  lemma SameBlockedHandlers(s: State, t: State)
    requires BlockedInv(s)
    requires forall id, h :: BlockedOn(t, id, h) ==> BlockedOn(s, id, h)
    requires forall h :: h in s.gates ==> h in t.gates && t.gates[h].checkpoint == s.gates[h].checkpoint
    requires forall h :: h in s.gates && t.gates[h].status == Armed ==> s.gates[h].status == Armed
    ensures BlockedInv(t)
  {
    forall i, h, j, k | BlockedOn(t, i, h) && BlockedOn(t, j, k) && h in t.gates && k in t.gates
                        && t.gates[h].checkpoint == t.gates[k].checkpoint
      ensures i == j && h == k
    {
      assert BlockedOn(s, i, h) && BlockedOn(s, j, k);
    }
  }

  /** Blocking on an armed gate whose occurrence has just been counted: no gate with this tuple has been
      reached before, since reached gates lie at or below the earlier count. */
  lemma BlockKeepsBlockedInv(s: State, id: HandlerId, h: Handle)
    requires BlockedInv(s) && ReachedGatesAreCounted(s)
    requires h in s.gates && s.gates[h].status == Armed
    requires s.gates[h].checkpoint.occurrence > Count(s.occurrences, Base(s.gates[h].checkpoint))
    requires id !in s.parked && id !in s.outcomes
    ensures BlockedInv(Block(s, id, h))
  {
    var t := Block(s, id, h);
    assert forall i, k :: BlockedOn(t, i, k) ==> BlockedOn(s, i, k) || (i == id && k == h);
    hide Base, Count, BlockedOn;
    forall i, g, j, k | BlockedOn(t, i, g) && BlockedOn(t, j, k) && g in t.gates && k in t.gates
                        && t.gates[g].checkpoint == t.gates[k].checkpoint
      ensures i == j && g == k
    {
      assert BlockedOn(s, i, g) ==> s.gates[g].checkpoint != s.gates[h].checkpoint;
      assert BlockedOn(s, j, k) ==> s.gates[k].checkpoint != s.gates[h].checkpoint;
    }
  }

  lemma EnterKeepsBlockedInv(s: State, id: HandlerId, c: Checkpoint)
    requires BlockedInv(s) && ReachedGatesAreCounted(s)
    requires id !in s.parked && id !in s.outcomes
    ensures BlockedInv(EnterStep(s, id, c))
  {
    hide Base, Count, Complete;
    var t := EnterStep(s, id, c);
    if t.gates == s.gates {
      SameBlockedHandlers(s, t);
    } else {
      var h := FindGate(s.gates, Exact(s, c)).value;
      BaseIgnoresOccurrence(c, Exact(s, c).occurrence);
      BlockKeepsBlockedInv(s, id, h);
      SameBlockedHandlers(Block(s, id, h), t);
    }
  }

  lemma KeepsBlockedInv(d: Declaration, s: State, a: Action)
    requires BlockedInv(s) && ReachedGatesAreCounted(s) && Enabled(s, a)
    ensures BlockedInv(Next(d, s, a))
  {
    if a.Enter? {
      EnterKeepsBlockedInv(s, a.id, a.checkpoint);
    } else {
      hide EnterStep, BlockedInv, ReachedGatesAreCounted;
      SameBlockedHandlers(s, Next(d, s, a));
    }
  }

  lemma StepKeepsInv(d: Declaration, s: State, a: Action)
    requires Inv(s) && Enabled(s, a)
    ensures Inv(Next(d, s, a))
  {
    KeepsOneActiveGatePerTuple(d, s, a);
    KeepsReachedGatesAreCounted(d, s, a);
    KeepsChannelsFollowStatus(d, s, a);
    KeepsResumedMeansReleased(d, s, a);
    KeepsParkedMeansWaiting(d, s, a);
    KeepsOneHandlerPerGate(d, s, a);
    KeepsBlockedGatesHaveHandlers(d, s, a);
    KeepsBlockedInv(d, s, a);
    hide *;
  }

  lemma EnterKeepsInv(d: Declaration, s: State, id: HandlerId, c: Checkpoint)
    requires Inv(s) && id !in s.parked && id !in s.outcomes
    ensures Inv(EnterStep(s, id, c)) && OneActiveGatePerTuple(s.gates)
  {
    hide EnterStep;
    StepKeepsInv(d, s, Enter(id, c));
  }

  lemma CancelKeepsInv(d: Declaration, s: State, id: HandlerId)
    requires Inv(s) && id in s.parked
    ensures s.parked[id] in s.gates && Inv(CancelStep(s, id))
  {
    hide CancelStep;
    StepKeepsInv(d, s, Cancel(id));
  }

  lemma ReleaseKeepsInv(d: Declaration, s: State, instance: string, handle: Handle, c: Checkpoint)
    requires Inv(s)
    ensures Inv(ReleaseStep(d, s, instance, handle, c))
  {
    hide ReleaseStep;
    StepKeepsInv(d, s, Release(instance, handle, c));
  }

  lemma {:induction false} RunKeepsInv(d: Declaration, s: State, actions: seq<Action>)
    requires Inv(s) && IsRun(d, s, actions)
    ensures Inv(After(d, s, actions))
    decreases |actions|
  {
    hide Inv, Next, Enabled;
    if actions != [] {
      StepKeepsInv(d, s, actions[0]);
      RunKeepsInv(d, Next(d, s, actions[0]), actions[1..]);
    }
  }

  /* ---------- what every run guarantees ---------- */

  ghost predicate Reachable(d: Declaration, s: State)
  {
    exists actions :: IsRun(d, INITIAL, actions) && After(d, INITIAL, actions) == s
  }

  lemma ReachableInv(d: Declaration, s: State)
    requires Reachable(d, s)
    ensures Inv(s)
  {
    var actions :| IsRun(d, INITIAL, actions) && After(d, INITIAL, actions) == s;
    assert Inv(INITIAL);
    RunKeepsInv(d, INITIAL, actions);
  }

  /** The gate lookup scans an unordered map, but at most one gate can match. */
  lemma LookupIsDeterministic(d: Declaration, s: State, c: Checkpoint, h: Handle, k: Handle)
    requires Reachable(d, s)
    requires Matches(s.gates, h, c) && Matches(s.gates, k, c)
    ensures h == k
  {
    ReachableInv(d, s);
  }

  /** In the lifetime of a process an exact tuple blocks at most one handler, on at most one gate. */
  lemma TupleBlocksOneHandler(d: Declaration, s: State, i: HandlerId, h: Handle, j: HandlerId, k: Handle)
    requires Reachable(d, s)
    requires BlockedOn(s, i, h) && BlockedOn(s, j, k)
    requires h in s.gates && k in s.gates && s.gates[h].checkpoint == s.gates[k].checkpoint
    ensures i == j && h == k
  {
    ReachableInv(d, s);
  }

  /** A handler that returned without error from a gate found that gate released, and the release
      channel of a gate has been closed once if the gate is released and never otherwise. */
  lemma ResumedOnlyAfterRelease(d: Declaration, s: State, id: HandlerId, h: Handle)
    requires Reachable(d, s)
    ensures id in s.outcomes && s.outcomes[id] == Resumed(h) ==> h in s.gates && s.gates[h].status == Released
    ensures h in s.gates ==> s.gates[h].closes == if s.gates[h].status == Released then 1 else 0
  {
    ReachableInv(d, s);
  }

  /** The converse fails: a handler whose context is done after the release still returns the context's
      error, on a run of four steps that leaves the gate released. */
  lemma ReleasedHandlerMayStillFail(d: Declaration, c: Checkpoint, h: Handle, id: HandlerId)
    requires ValidFor(d, c) && c.service != "" && c.occurrence == 1 && h != ""
    ensures var run := [Arm(d.instanceId, c, h), Enter(id, c), Release(d.instanceId, h, c), Cancel(id)];
            && IsRun(d, INITIAL, run)
            && After(d, INITIAL, run).gates == map[h := Gate(c, Released, 1)]
            && After(d, INITIAL, run).outcomes == map[id := Interrupted(h)]
  {
    var arm, enter := Arm(d.instanceId, c, h), Enter(id, c);
    var release, cancel := Release(d.instanceId, h, c), Cancel(id);
    var armed := Next(d, INITIAL, arm);
    assert armed == INITIAL.(gates := map[h := Gate(c, Armed, 0)]);
    hide Base, ValidFor;
    EnterBlocksOnOnly(armed, id, c, h);
    var blocked := Next(d, armed, enter);
    var released := Next(d, blocked, release);
    assert released.gates == map[h := Gate(c, Released, 1)] && released.parked == map[id := h];
    assert released.outcomes == map[];
    var cancelled := Next(d, released, cancel);
    RunNext(d, released, cancel, []);
    RunNext(d, blocked, release, [cancel]);
    RunNext(d, armed, enter, [release, cancel]);
    RunNext(d, INITIAL, arm, [enter, release, cancel]);
    assert [release] + [cancel] == [release, cancel];
    assert [enter] + [release, cancel] == [enter, release, cancel];
    assert [arm] + [enter, release, cancel] == [arm, enter, release, cancel];
  }

  lemma RunNext(d: Declaration, s: State, a: Action, rest: seq<Action>)
    requires Enabled(s, a) && IsRun(d, Next(d, s, a), rest)
    ensures IsRun(d, s, [a] + rest) && After(d, s, [a] + rest) == After(d, Next(d, s, a), rest)
  {
    hide Next, Enabled;
    assert ([a] + rest)[1..] == rest;
  }

  lemma EnterBlocksOnOnly(s: State, id: HandlerId, c: Checkpoint, h: Handle)
    requires s.gates == map[h := Gate(c, Armed, 0)] && Complete(c) && c.occurrence == Actual(s, c)
    ensures EnterStep(s, id, c) == Block(Counted(s, c), id, h)
  {
    hide Base, Complete;
    assert Matches(s.gates, h, c);
  }

  /** A handler that has returned stays so. */
  lemma {:induction false} OutcomeStays(d: Declaration, s: State, actions: seq<Action>, id: HandlerId)
    requires Inv(s) && IsRun(d, s, actions) && id in s.outcomes
    ensures var t := After(d, s, actions);
            id in t.outcomes && t.outcomes[id] == s.outcomes[id] && id !in t.parked
    ensures Cancel(id) !in actions && Wake(id) !in actions
    decreases |actions|
  {
    assert id !in s.parked;
    if actions != [] {
      assert actions[0] != Cancel(id) && actions[0] != Wake(id);
      StepKeepsInv(d, s, actions[0]);
      OutcomeStaysInStep(d, s, actions[0], id);
      hide Next, Enabled, Inv;
      OutcomeStays(d, Next(d, s, actions[0]), actions[1..], id);
    }
  }

  lemma OutcomeStaysInStep(d: Declaration, s: State, a: Action, id: HandlerId)
    requires ParkedMeansWaiting(s) && Enabled(s, a) && id in s.outcomes
    ensures id in Next(d, s, a).outcomes && Next(d, s, a).outcomes[id] == s.outcomes[id]
  {
    hide Base, Count, Complete, ValidFor;
  }

  lemma ParkedInStep(d: Declaration, s: State, a: Action, id: HandlerId)
    requires Enabled(s, a) && id in s.parked
    ensures var t := Next(d, s, a);
            if a == Cancel(id) then id in t.outcomes && t.outcomes[id] == Interrupted(s.parked[id])
            else if a == Wake(id) then id in t.outcomes && t.outcomes[id] == Resumed(s.parked[id])
            else id in t.parked && t.parked[id] == s.parked[id]
  {
    hide Base, Count, Complete, ValidFor;
  }

  predicate EndsAs(s: State, id: HandlerId, r: Outcome) { id in s.outcomes && s.outcomes[id] == r }

  /** The exact converse: a parked handler returns its context's error exactly if the run cancels it, released gate
      or not, returns without error exactly if it wakes, and is still parked otherwise. */
  lemma {:induction false} ParkedHandlerEndsAsTold(d: Declaration, s: State, actions: seq<Action>, id: HandlerId)
    requires Inv(s) && IsRun(d, s, actions) && id in s.parked
    ensures var t := After(d, s, actions);
            && (EndsAs(t, id, Interrupted(s.parked[id])) <==> Cancel(id) in actions)
            && (EndsAs(t, id, Resumed(s.parked[id])) <==> Wake(id) in actions)
            && (id in t.parked <==> Cancel(id) !in actions && Wake(id) !in actions)
    decreases |actions|
  {
    if actions == [] {
      assert id !in s.outcomes;
    } else {
      var next := Next(d, s, actions[0]);
      StepKeepsInv(d, s, actions[0]);
      ParkedInStep(d, s, actions[0], id);
      hide Next, Enabled, Inv;
      if id in next.outcomes {
        OutcomeStays(d, next, actions[1..], id);
      } else {
        ParkedHandlerEndsAsTold(d, next, actions[1..], id);
      }
    }
  }

  function Rank(status: Status): nat
  {
    match status
    case Armed => 0
    case Blocked => 1
    case _ => 2
  }

  predicate Forward(before: Gate, after: Gate)
  {
    && after.checkpoint == before.checkpoint
    && Rank(before.status) <= Rank(after.status)
    && (Rank(before.status) == 2 ==> after == before)
  }

  lemma StepMovesForward(d: Declaration, s: State, a: Action, h: Handle)
    requires Enabled(s, a) && h in s.gates
    requires ParkedMeansWaiting(s)
    ensures h in Next(d, s, a).gates && Forward(s.gates[h], Next(d, s, a).gates[h])
    ensures Next(d, s, a).gates[h].closes > s.gates[h].closes ==> a.Release? && a.handle == h
  {
    hide Base, Count, Complete, ValidFor;
  }

  /** Over every run a gate keeps its tuple, its status never moves backwards, and a cancelled or
      released gate never changes again. */
  lemma {:induction false} RunMovesForward(d: Declaration, s: State, actions: seq<Action>, h: Handle)
    requires Inv(s) && IsRun(d, s, actions) && h in s.gates
    ensures h in After(d, s, actions).gates && Forward(s.gates[h], After(d, s, actions).gates[h])
    decreases |actions|
  {
    hide Next, Enabled;
    if actions != [] {
      StepKeepsInv(d, s, actions[0]);
      StepMovesForward(d, s, actions[0], h);
      RunMovesForward(d, Next(d, s, actions[0]), actions[1..], h);
    }
  }

  /* ---------- which armed gates can still block ---------- */

  /** The gate's occurrence has not been reached yet. */
  predicate Ahead(s: State, h: Handle)
    requires h in s.gates
  {
    s.gates[h].checkpoint.occurrence > Count(s.occurrences, Base(s.gates[h].checkpoint))
  }

  lemma MissedStepStaysArmed(d: Declaration, s: State, a: Action, h: Handle)
    requires ParkedMeansWaiting(s) && Enabled(s, a)
    requires h in s.gates && s.gates[h].status == Armed && !Ahead(s, h)
    ensures var t := Next(d, s, a);
            h in t.gates && t.gates[h] == s.gates[h] && !Ahead(t, h)
  {
    hide Base, Complete, ValidFor;
    if a.Enter? {
      BaseIgnoresOccurrence(a.checkpoint, Exact(s, a.checkpoint).occurrence);
    }
  }

  /** A gate armed for an occurrence that has already been counted stays armed in every run: it can
      neither block nor be released, and the process never becomes quiescent again. */
  lemma {:induction false} MissedGateStaysArmed(d: Declaration, s: State, actions: seq<Action>, h: Handle)
    requires Inv(s) && IsRun(d, s, actions)
    requires h in s.gates && s.gates[h].status == Armed && !Ahead(s, h)
    ensures h in After(d, s, actions).gates && After(d, s, actions).gates[h].status == Armed
    decreases |actions|
  {
    hide Next, Enabled, Ahead;
    if actions != [] {
      StepKeepsInv(d, s, actions[0]);
      MissedStepStaysArmed(d, s, actions[0], h);
      MissedGateStaysArmed(d, Next(d, s, actions[0]), actions[1..], h);
    }
  }

  ghost function FreshId(s: State): (id: HandlerId)
    ensures id !in s.parked && id !in s.outcomes
  {
    NatOutside(s.parked.Keys + s.outcomes.Keys);
    var id: HandlerId :| id !in s.parked.Keys + s.outcomes.Keys;
    id
  }

  lemma {:induction false} NatOutside(used: set<nat>)
    ensures exists n: nat :: n !in used
  {
    var bound := UpperBound(used);
    assert bound + 1 !in used;
  }

  ghost function UpperBound(used: set<nat>): (n: nat)
    ensures forall x :: x in used ==> x <= n
  {
    if used == {} then 0
    else
      var x :| x in used;
      var rest := UpperBound(used - {x});
      assert forall y :: y in used ==> y == x || y in used - {x};
      if x > rest then x else rest
  }

  /** One entry without an explicit occurrence either reaches the gate or brings the count one nearer. */
  lemma EnterApproaches(s: State, h: Handle, id: HandlerId)
    requires OneActiveGatePerTuple(s.gates) && h in s.gates && s.gates[h].status == Armed
    requires Ahead(s, h) && Complete(s.gates[h].checkpoint)
    ensures var exact := s.gates[h].checkpoint;
            var t := EnterStep(s, id, exact.(occurrence := 0));
            h in t.gates &&
            if Count(s.occurrences, Base(exact)) + 1 == exact.occurrence then t.gates[h].status == Blocked
            else t.gates[h] == s.gates[h] && Count(t.occurrences, Base(exact)) == Count(s.occurrences, Base(exact)) + 1
  {
    hide Base, Complete;
    var exact := s.gates[h].checkpoint;
    BaseIgnoresOccurrence(exact, 0);
    assert Matches(s.gates, h, exact);
  }

  /** An armed gate whose occurrence lies ahead blocks a handler after enough further entries. */
  lemma {:induction false} AheadGateCanBlock(d: Declaration, s: State, h: Handle) returns (actions: seq<Action>)
    requires Inv(s) && h in s.gates && s.gates[h].status == Armed
    requires Ahead(s, h) && Complete(s.gates[h].checkpoint)
    ensures IsRun(d, s, actions)
    ensures h in After(d, s, actions).gates && After(d, s, actions).gates[h].status == Blocked
    decreases s.gates[h].checkpoint.occurrence - Count(s.occurrences, Base(s.gates[h].checkpoint))
  {
    hide Base, Complete, EnterStep, Count;
    var exact := s.gates[h].checkpoint;
    var step := Enter(FreshId(s), exact.(occurrence := 0));
    var t := Next(d, s, step);
    StepKeepsInv(d, s, step);
    EnterApproaches(s, h, step.id);
    hide Inv;
    if Count(s.occurrences, Base(exact)) + 1 == exact.occurrence {
      actions := [step];
      assert After(d, t, actions[1..]) == t;
    } else {
      var rest := AheadGateCanBlock(d, t, h);
      actions := [step] + rest;
      assert actions[1..] == rest;
    }
  }

  /* ---------- quiescence ---------- */

  ghost function WithStatus(s: State, status: Status): set<Handle>
  {
    set h | h in s.gates && s.gates[h].status == status
  }

  /** A process that reports no blocked gate has no stuck handler: every handler still parked has its
      channel closed and can return. */
  lemma NoBlockedGateMeansNoStuckHandler(d: Declaration, s: State, id: HandlerId)
    requires Reachable(d, s) && WithStatus(s, Blocked) == {} && id in s.parked
    ensures Enabled(s, Wake(id))
  {
    ReachableInv(d, s);
    var h := s.parked[id];
    assert h !in WithStatus(s, Blocked);
  }

  /* ---------- occurrence counting ---------- */

  ghost function Entries(entries: seq<Checkpoint>, base: string): nat
  {
    if entries == [] then 0
    else
      var last := |entries| - 1;
      Entries(entries[..last], base) + (if Base(entries[last]) == base then 1 else 0)
  }

  ghost predicate CountsEntries(s: State)
  {
    forall base :: Count(s.occurrences, base) == Entries(s.entries, base)
  }

  lemma EnterCounts(s: State, id: HandlerId, c: Checkpoint)
    ensures var t := EnterStep(s, id, c);
            if Complete(c) then t.occurrences == Counted(s, c).occurrences && t.entries == Counted(s, c).entries
            else t.occurrences == s.occurrences && t.entries == s.entries
  {
    hide Base, Count, Complete;
  }

  lemma EntriesStep(entries: seq<Checkpoint>, c: Checkpoint, base: string)
    ensures Entries(entries + [c], base) == Entries(entries, base) + (if Base(c) == base then 1 else 0)
  {
    assert (entries + [c])[..|entries|] == entries;
  }

  lemma EnterCountsEntries(s: State, id: HandlerId, c: Checkpoint)
    requires CountsEntries(s)
    ensures CountsEntries(EnterStep(s, id, c))
  {
    hide Base, Complete, EnterStep, Entries;
    EnterCounts(s, id, c);
    var t := EnterStep(s, id, c);
    forall base
      ensures Count(t.occurrences, base) == Entries(t.entries, base)
    {
      assert Count(s.occurrences, base) == Entries(s.entries, base);
      EntriesStep(s.entries, c, base);
    }
  }

  lemma StepCountsEntries(d: Declaration, s: State, a: Action)
    requires CountsEntries(s) && Enabled(s, a)
    ensures CountsEntries(Next(d, s, a))
  {
    hide EnterStep, Entries;
    if a.Enter? {
      EnterCountsEntries(s, a.id, a.checkpoint);
    }
  }

  lemma {:induction false} RunCountsEntries(d: Declaration, s: State, actions: seq<Action>)
    requires CountsEntries(s) && IsRun(d, s, actions)
    ensures CountsEntries(After(d, s, actions))
    decreases |actions|
  {
    hide Next, Enabled, CountsEntries;
    if actions != [] {
      StepCountsEntries(d, s, actions[0]);
      RunCountsEntries(d, Next(d, s, actions[0]), actions[1..]);
    }
  }

  predicate NulFree(text: string) { forall i :: 0 <= i < |text| ==> text[i] != '\0' }

  predicate Separable(c: Checkpoint)
  {
    NulFree(c.service) && NulFree(c.name) && NulFree(c.eventId) && NulFree(c.stepId)
  }

  lemma {:induction false} FirstPartUnique(a: string, restA: string, b: string, restB: string)
    requires NulFree(a) && NulFree(b) && a + NUL + restA == b + NUL + restB
    ensures a == b && restA == restB
    decreases |a|
  {
    var x, y := a + NUL + restA, b + NUL + restB;
    assert x[0] == if a == "" then '\0' else a[0];
    assert y[0] == if b == "" then '\0' else b[0];
    if a == "" {
      assert x[1..] == restA && y[1..] == restB;
    } else {
      assert x[1..] == a[1..] + NUL + restA && y[1..] == b[1..] + NUL + restB;
      FirstPartUnique(a[1..], restA, b[1..], restB);
    }
  }

  /** The base key separates tuples whose parts hold no NUL, so the occurrence number of a tuple counts
      exactly the entries of that tuple. */
  lemma BaseIsInjective(a: Checkpoint, b: Checkpoint)
    requires Separable(a) && Separable(b) && Base(a) == Base(b)
    ensures a == b.(occurrence := a.occurrence)
  {
    var tailA, tailB := a.name + NUL + (a.eventId + NUL + a.stepId), b.name + NUL + (b.eventId + NUL + b.stepId);
    assert Base(a) == a.service + NUL + tailA;
    assert Base(b) == b.service + NUL + tailB;
    FirstPartUnique(a.service, tailA, b.service, tailB);
    FirstPartUnique(a.name, a.eventId + NUL + a.stepId, b.name, b.eventId + NUL + b.stepId);
    FirstPartUnique(a.eventId, a.stepId, b.eventId, b.stepId);
  }

  /** A NUL inside a part makes two different tuples share one occurrence counter. */
  lemma NulMergesTuples()
    ensures exists a, b: Checkpoint :: Complete(a) && Complete(b) && a.name != b.name && Base(a) == Base(b)
  {
    var a := Checkpoint("n", "s\0x", "e", "t", 0);
    var b := Checkpoint("x\0n", "s", "e", "t", 0);
    assert Base(a) == "s\0x\0n\0e\0t";
    assert Base(b) == "s\0x\0n\0e\0t";
  }
}
