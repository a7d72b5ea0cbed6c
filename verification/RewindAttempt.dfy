/** One attempt of a rewind run: the engine's fixed sequence of calls beside the consumer that it starts, stops and
    starts again.  Every call may fail, and the consumer may move or crash at any point. */
module RewindAttempt {
  import opened Options
  import opened Scenario
  import opened VerticalPlan
  import P = Projector

  /** Where the engine stands. */
  datatype Stage =
    | Starting
    | Publishing(next: nat)
    | CheckingOffset
    | AwaitingDelivery
    | AwaitingCommit
    | RequiringMember
    | Stopping
    | AwaitingEmpty
    | Rewinding
    | Restarting
    | AwaitingRedelivery
    | AwaitingFinalCommit
    | Observing
    | Complete
    | Failed

  /** The consumer with its log, ledger and committed offset; whether the broker counts it as a group member; and the
      offset of the primary record once it is published. */
  datatype State = State(stage: Stage, consumer: P.State, member: bool, published: Option<nat>)

  /** The plan, whether the service under test has the guard, and which events it can handle. */
  datatype Setting = Setting(plan: Plan, guarded: bool, handles: Event -> bool)

  datatype Move =
    | Engine
    | Consume(step: P.Step)
    | Join
    | Leave
    | Fail

  const INITIAL := State(Starting, P.INITIAL, false, None)

  predicate ByConsumer(step: P.Step)
  {
    step.Poll? || step.Process? || step.Commit? || step.CommitUnacknowledged? || step.Confirm? || step.Crash?
  }

  function Confirmed(ledger: seq<P.Delivery>): seq<P.Delivery>
  {
    if ledger == [] then []
    else
      var last := ledger[|ledger| - 1];
      Confirmed(ledger[..|ledger| - 1]) + (if last.confirmed then [last] else [])
  }

  predicate RedeliveredExactly(deliveries: seq<P.Delivery>, published: Option<nat>)
  {
    |deliveries| >= 2 && published.Some? && deliveries[0].offset == deliveries[1].offset == published.value
  }

  function Publish(run: Setting, s: State, publication: Publication): State
    requires publication.action.Publish? && run.plan.rewind.RewindOffset?
  {
    if !Targets(publication.action, run.plan.rewind) then s
    else
      var record := P.Record(publication.event.id, run.handles(publication.event));
      s.(consumer := P.Apply(run.guarded, s.consumer, P.Step.Publish(record)), published := Some(|s.consumer.log|))
  }

  function Call(run: Setting, s: State, step: P.Step, next: Stage): State
  {
    s.(consumer := P.Apply(run.guarded, s.consumer, step), stage := next)
  }

  function When(s: State, condition: bool, next: Stage): State { if condition then s.(stage := next) else s }

  function Check(s: State, condition: bool, next: Stage): State { s.(stage := if condition then next else Failed) }

  /** The engine's next call.  Waiting goes on until its condition holds or the deadline fails the attempt. */
  function Advance(run: Setting, s: State): State
    requires run.plan.rewind.RewindOffset?
    requires forall i :: 0 <= i < |run.plan.publishes| ==> run.plan.publishes[i].action.Publish?
  {
    var target := run.plan.rewind.toOffset;
    var committed := s.consumer.committed;
    match s.stage
    case Starting => Call(run, s, P.Start, Publishing(0))
    case Publishing(next) =>
      if next < |run.plan.publishes|
      then Publish(run, s, run.plan.publishes[next]).(stage := Publishing(next + 1))
      else s.(stage := CheckingOffset)
    case CheckingOffset => Check(s, s.published.Some? && s.published.value == target, AwaitingDelivery)
    case AwaitingDelivery => When(s, |Confirmed(s.consumer.ledger)| >= 1, AwaitingCommit)
    case AwaitingCommit =>
      When(s, s.published.Some? && committed == Some(s.published.value + 1), RequiringMember)
    case RequiringMember => Check(s, s.member, Stopping)
    case Stopping => Call(run, s, P.Crash, AwaitingEmpty)
    case AwaitingEmpty => When(s, !s.member, Rewinding)
    case Rewinding =>
      if s.member || !P.Rewinds(s.consumer, target) then s.(stage := Failed)
      else Call(run, s, P.Step.Rewind(target), Restarting)
    case Restarting => Call(run, s, P.Start, AwaitingRedelivery)
    case AwaitingRedelivery =>
      var deliveries := Confirmed(s.consumer.ledger);
      if |deliveries| < 2 then s else Check(s, RedeliveredExactly(deliveries, s.published), AwaitingFinalCommit)
    case AwaitingFinalCommit =>
      When(s, s.published.Some? && committed == Some(s.published.value + 1), Observing)
    case Observing => s.(stage := Complete)
    case Complete => s
    case Failed => s
  }

  /** A step of a stopped consumer changes nothing; a running one joins its group, and a stopped one leaves it when
      the broker notices. */
  function Next(run: Setting, s: State, move: Move): State
    requires Runnable(run.plan)
  {
    match move
    case Engine => Advance(run, s)
    case Consume(step) =>
      if ByConsumer(step) then s.(consumer := P.Apply(run.guarded, s.consumer, step)) else s
    case Join => if s.consumer.phase.Down? then s else s.(member := true)
    case Leave => if s.consumer.phase.Down? then s.(member := false) else s
    case Fail => if s.stage == Complete then s else s.(stage := Failed)
  }

  function Run(run: Setting, moves: seq<Move>): State
    requires Runnable(run.plan)
  {
    if moves == [] then INITIAL else Next(run, Run(run, moves[..|moves| - 1]), moves[|moves| - 1])
  }

  predicate Runnable(plan: Plan)
  {
    plan.rewind.RewindOffset? && forall i :: 0 <= i < |plan.publishes| ==> plan.publishes[i].action.Publish?
  }

  lemma {:induction false} ConfirmedSome(ledger: seq<P.Delivery>)
    ensures |Confirmed(ledger)| >= 1 <==> exists i :: 0 <= i < |ledger| && ledger[i].confirmed
  {
    if ledger != [] { ConfirmedSome(ledger[..|ledger| - 1]); }
  }

  /** When the engine goes on to the next stage, stays, or fails. */
  lemma StageGuards(run: Setting, s: State)
    requires Runnable(run.plan)
    ensures var target, next := run.plan.rewind.toOffset, Advance(run, s);
            var committed := s.published.Some? && s.consumer.committed == Some(s.published.value + 1);
            match s.stage
            case CheckingOffset => next.stage == if s.published.Some? && s.published.value == target then AwaitingDelivery else Failed
            case AwaitingDelivery =>
              next.stage == if exists i :: 0 <= i < |s.consumer.ledger| && s.consumer.ledger[i].confirmed then AwaitingCommit else s.stage
            case AwaitingCommit => next.stage == if committed then RequiringMember else s.stage
            case RequiringMember => next.stage == if s.member then Stopping else Failed
            case Stopping => next.stage == AwaitingEmpty && next.consumer == s.consumer.(phase := P.Down)
            case AwaitingEmpty => next.stage == if s.member then s.stage else Rewinding
            case Rewinding =>
              if !s.member && s.consumer.phase.Down? && s.consumer.committed.Some? && 0 <= target < |s.consumer.log|
              then next.stage == Restarting && next.consumer == s.consumer.(committed := Some(target))
              else next.stage == Failed && next.consumer == s.consumer
            case Restarting =>
              && next.stage == AwaitingRedelivery
              && (s.consumer.phase.Down? && s.consumer.committed.Some? ==>
                    next.consumer == s.consumer.(phase := P.Idle(s.consumer.committed.value)))
            case AwaitingRedelivery =>
              var confirmed := Confirmed(s.consumer.ledger);
              next.stage == if |confirmed| < 2 then s.stage
                            else if s.published.Some? && confirmed[0].offset == s.published.value == confirmed[1].offset
                            then AwaitingFinalCommit else Failed
            case AwaitingFinalCommit => next.stage == if committed then Observing else s.stage
            case _ => true
    ensures Next(run, s, Fail).stage == if s.stage.Complete? then Complete else Failed
  {
    ConfirmedSome(s.consumer.ledger);
    hide Confirmed;
  }

  /* ---------- the plans that the engine takes ---------- */

  /** One publication, the primary one, is to the log that is rewound. */
  ghost predicate OnePrimary(plan: Plan, k: nat)
  {
    && Runnable(plan) && k < |plan.publishes| && plan.publishes[k] == plan.primary
    && forall i :: 0 <= i < |plan.publishes| ==> (Targets(plan.publishes[i].action, plan.rewind) <==> i == k)
  }

  lemma TakenHasOnePrimary(a: Authored, plan: Plan) returns (k: nat)
    requires Accepts(a) && PlanOf(a, plan)
    ensures OnePrimary(plan, k)
  {
    hide Publications, Primaries;
    k := PrimaryIsUnique(Publications(a.steps), TheRewind(a));
  }

  /* ---------- one life of the consumer ---------- */

  function TheRecord(run: Setting): P.Record { P.Record(run.plan.primary.event.id, run.handles(run.plan.primary.event)) }

  function TheDelivery(run: Setting, confirmed: bool): P.Delivery
  {
    P.Delivery(run.plan.primary.event.id, 0, confirmed)
  }

  /** What the consumer found when it started. */
  datatype Found = Found(ledger: seq<P.Delivery>, reservations: seq<string>, committed: Option<nat>)

  ghost predicate Untouched(st: P.State, found: Found)
  {
    st.ledger == found.ledger && st.reservations == found.reservations && st.committed == found.committed
  }

  /** The record has been processed once. */
  ghost predicate Processed(run: Setting, st: P.State, found: Found, committed: bool, confirmed: bool)
  {
    && st.log == [TheRecord(run)] && TheRecord(run).valid
    && st.ledger == found.ledger + [TheDelivery(run, confirmed)]
    && st.reservations == P.Reserve(run.guarded, found.reservations, run.plan.primary.event.id)
    && st.committed == if committed then Some(1) else found.committed
  }

  /** Where a consumer can be that started on a log of at most the primary record. */
  ghost predicate Lives(run: Setting, st: P.State, found: Found)
  {
    && (st.log == [] || st.log == [TheRecord(run)]) && P.Resume(found.committed) == 0
    && match st.phase
       case Idle(position) => if position == 0 then Untouched(st, found) else position == 1 && Processed(run, st, found, true, true)
       case Fetched(offset) => offset == 0 && st.log != [] && Untouched(st, found)
       case Stored(offset, delivery) => offset == 0 && delivery == |found.ledger| && Processed(run, st, found, false, false)
       case Acknowledged(offset, delivery) => offset == 0 && delivery == |found.ledger| && Processed(run, st, found, true, false)
       case Down =>
         || Untouched(st, found) || Processed(run, st, found, false, false)
         || Processed(run, st, found, true, false) || Processed(run, st, found, true, true)
  }

  lemma ConsumerLives(run: Setting, st: P.State, found: Found, step: P.Step)
    requires Lives(run, st, found) && ByConsumer(step)
    ensures Lives(run, P.Apply(run.guarded, st, step), found)
  {
    hide P.Reserve;
    if step.Confirm? && st.phase.Acknowledged? {
      var ledger := st.ledger[st.phase.delivery := st.ledger[st.phase.delivery].(confirmed := true)];
      assert ledger == found.ledger + [TheDelivery(run, true)];
    }
  }

  /** A delivery that is confirmed stays. */
  lemma DoneLives(run: Setting, st: P.State, found: Found, step: P.Step)
    requires Lives(run, st, found) && ByConsumer(step) && Processed(run, st, found, true, true)
    ensures Processed(run, P.Apply(run.guarded, st, step), found, true, true)
  {
    hide P.Reserve;
    assert st.phase.Down? || st.phase == P.Idle(1) by {
      assert found.ledger + [TheDelivery(run, true)] != found.ledger;
      assert (found.ledger + [TheDelivery(run, true)])[|found.ledger|].confirmed;
      assert !(found.ledger + [TheDelivery(run, false)])[|found.ledger|].confirmed;
    }
  }

  lemma ConfirmedOne(d: P.Delivery)
    ensures Confirmed([d]) == if d.confirmed then [d] else []
  {
    assert [d][..0] == [];
  }

  lemma ConfirmedTwo(d: P.Delivery, e: P.Delivery)
    ensures Confirmed([d, e]) == (if d.confirmed then [d] else []) + (if e.confirmed then [e] else [])
  {
    ConfirmedOne(d);
    assert [d, e][..1] == [d];
  }

  /* ---------- what every interleaving keeps ---------- */

  ghost function First(): Found { Found([], [], None) }

  ghost function Second(run: Setting): Found
  {
    Found([TheDelivery(run, true)], [run.plan.primary.event.id], Some(0))
  }

  /** The first life, with the record published or not. */
  ghost predicate FirstLife(run: Setting, s: State, published: bool)
  {
    && Lives(run, s.consumer, First())
    && s.consumer.log == (if published then [TheRecord(run)] else [])
    && s.published == if published then Some(0) else None
  }

  ghost predicate SecondLife(run: Setting, s: State)
    requires Runnable(run.plan)
  {
    && Lives(run, s.consumer, Second(run)) && s.consumer.log == [TheRecord(run)] && TheRecord(run).valid
    && s.published == Some(0) && run.plan.rewind.toOffset == 0
  }

  /** Published, delivered, committed and confirmed. */
  ghost predicate FirstDone(run: Setting, s: State)
    requires Runnable(run.plan)
  {
    FirstLife(run, s, true) && Processed(run, s.consumer, First(), true, true) && run.plan.rewind.toOffset == 0
  }

  ghost predicate SecondDone(run: Setting, s: State)
    requires Runnable(run.plan)
  {
    SecondLife(run, s) && Processed(run, s.consumer, Second(run), true, true)
  }

  ghost predicate Inv(run: Setting, k: nat, s: State)
    requires Runnable(run.plan)
  {
    match s.stage
    case Starting => s == INITIAL
    case Publishing(next) => FirstLife(run, s, k < next)
    case CheckingOffset => FirstLife(run, s, true)
    case AwaitingDelivery => FirstLife(run, s, true) && run.plan.rewind.toOffset == 0
    case AwaitingCommit => FirstDone(run, s)
    case RequiringMember => FirstDone(run, s)
    case Stopping => FirstDone(run, s)
    case AwaitingEmpty => FirstDone(run, s) && s.consumer.phase.Down?
    case Rewinding => FirstDone(run, s) && s.consumer.phase.Down? && !s.member
    case Restarting => SecondLife(run, s) && s.consumer.phase.Down? && Untouched(s.consumer, Second(run))
    case AwaitingRedelivery => SecondLife(run, s)
    case AwaitingFinalCommit => SecondDone(run, s)
    case Observing => SecondDone(run, s)
    case Complete => SecondDone(run, s)
    case Failed => true
  }

  lemma LedgerInLife(run: Setting, st: P.State, found: Found)
    requires Lives(run, st, found)
    ensures || st.ledger == found.ledger || st.ledger == found.ledger + [TheDelivery(run, false)]
            || Processed(run, st, found, true, true)
  {}

  lemma ConfirmedOnce(run: Setting, st: P.State)
    requires Lives(run, st, First()) && |Confirmed(st.ledger)| >= 1
    ensures Processed(run, st, First(), true, true)
  {
    LedgerInLife(run, st, First());
    hide Lives, Processed;
    ConfirmedOne(TheDelivery(run, false));
    assert First().ledger + [TheDelivery(run, false)] == [TheDelivery(run, false)];
  }

  lemma ConfirmedTwice(run: Setting, st: P.State)
    requires Lives(run, st, Second(run)) && |Confirmed(st.ledger)| >= 2
    ensures Processed(run, st, Second(run), true, true)
    ensures Confirmed(st.ledger) == [TheDelivery(run, true), TheDelivery(run, true)]
  {
    LedgerInLife(run, st, Second(run));
    ConfirmedOne(TheDelivery(run, true));
    ConfirmedTwo(TheDelivery(run, true), TheDelivery(run, false));
    ConfirmedTwo(TheDelivery(run, true), TheDelivery(run, true));
    hide Lives, Confirmed, P.Reserve;
    assert Second(run).ledger + [TheDelivery(run, false)] == [TheDelivery(run, true), TheDelivery(run, false)];
    assert Second(run).ledger + [TheDelivery(run, true)] == [TheDelivery(run, true), TheDelivery(run, true)];
  }

  lemma PublishKeepsInv(run: Setting, k: nat, s: State)
    requires OnePrimary(run.plan, k) && s.stage.Publishing? && Inv(run, k, s)
    ensures Inv(run, k, Advance(run, s))
  {
    hide Targets, P.Reserve;
    var next := s.stage.next;
    if next < |run.plan.publishes| {
      assert Targets(run.plan.publishes[next].action, run.plan.rewind) <==> next == k;
    }
  }

  lemma RewindKeepsInv(run: Setting, k: nat, s: State)
    requires Runnable(run.plan) && s.stage.Rewinding? && Inv(run, k, s)
    ensures Inv(run, k, Advance(run, s)) && Advance(run, s).stage == Restarting
  {
    assert First().ledger + [TheDelivery(run, true)] == [TheDelivery(run, true)];
    assert P.Reserve(run.guarded, [], run.plan.primary.event.id) == [run.plan.primary.event.id];
  }

  /** Starting and stopping the consumer. */
  lemma CallKeepsInv(run: Setting, k: nat, s: State)
    requires Runnable(run.plan) && Inv(run, k, s) && (s.stage.Starting? || s.stage.Stopping? || s.stage.Restarting?)
    ensures Inv(run, k, Advance(run, s))
  {
    hide Confirmed, P.Reserve;
  }

  /** The offset is the target, and the first delivery or both are there. */
  lemma CheckKeepsInv(run: Setting, k: nat, s: State)
    requires Runnable(run.plan) && Inv(run, k, s)
    requires s.stage.CheckingOffset? || s.stage.AwaitingDelivery? || s.stage.AwaitingRedelivery?
    ensures Inv(run, k, Advance(run, s))
  {
    hide Processed, Lives, Confirmed, P.Apply;
    if s.stage.AwaitingDelivery? && |Confirmed(s.consumer.ledger)| >= 1 { ConfirmedOnce(run, s.consumer); }
    if s.stage.AwaitingRedelivery? && |Confirmed(s.consumer.ledger)| >= 2 { ConfirmedTwice(run, s.consumer); }
  }

  lemma WaitKeepsInv(run: Setting, k: nat, s: State)
    requires Runnable(run.plan) && Inv(run, k, s)
    requires || s.stage.AwaitingCommit? || s.stage.RequiringMember? || s.stage.AwaitingEmpty? || s.stage.AwaitingFinalCommit?
             || s.stage.Observing? || s.stage.Complete? || s.stage.Failed?
    ensures Inv(run, k, Advance(run, s))
  {
    hide Processed, Lives, Confirmed, P.Apply;
  }

  lemma EngineKeepsInv(run: Setting, k: nat, s: State)
    requires OnePrimary(run.plan, k) && Inv(run, k, s)
    ensures Inv(run, k, Advance(run, s))
  {
    hide Inv, Advance;
    match s.stage
    case Publishing(_) => PublishKeepsInv(run, k, s);
    case Rewinding => RewindKeepsInv(run, k, s);
    case Starting => CallKeepsInv(run, k, s);
    case Stopping => CallKeepsInv(run, k, s);
    case Restarting => CallKeepsInv(run, k, s);
    case CheckingOffset => CheckKeepsInv(run, k, s);
    case AwaitingDelivery => CheckKeepsInv(run, k, s);
    case AwaitingRedelivery => CheckKeepsInv(run, k, s);
    case _ => WaitKeepsInv(run, k, s);
  }

  lemma LifeGoesOn(run: Setting, st: P.State, found: Found, step: P.Step)
    requires ByConsumer(step)
    ensures var next := P.Apply(run.guarded, st, step);
            && next.log == st.log && (st.phase.Down? ==> next == st)
            && (Lives(run, st, found) ==> Lives(run, next, found))
            && (Lives(run, st, found) && Processed(run, st, found, true, true) ==> Processed(run, next, found, true, true))
  {
    if Lives(run, st, found) {
      ConsumerLives(run, st, found, step);
      if Processed(run, st, found, true, true) { DoneLives(run, st, found, step); }
    }
    hide Lives, Processed;
  }

  lemma ConsumerKeepsInv(run: Setting, k: nat, s: State, step: P.Step)
    requires Runnable(run.plan) && Inv(run, k, s) && ByConsumer(step)
    ensures Inv(run, k, s.(consumer := P.Apply(run.guarded, s.consumer, step)))
  {
    hide Lives, Processed, P.Apply, TheRecord, Second;
    LifeGoesOn(run, s.consumer, First(), step);
    LifeGoesOn(run, s.consumer, Second(run), step);
  }

  lemma NextKeepsInv(run: Setting, k: nat, s: State, move: Move)
    requires OnePrimary(run.plan, k) && Inv(run, k, s)
    ensures Inv(run, k, Next(run, s, move))
  {
    hide Advance, Processed, Lives, P.Apply;
    match move
    case Engine => EngineKeepsInv(run, k, s);
    case Consume(step) => if ByConsumer(step) { ConsumerKeepsInv(run, k, s, step); }
    case _ =>
  }

  lemma {:induction false} RunKeepsInv(run: Setting, k: nat, moves: seq<Move>)
    requires OnePrimary(run.plan, k)
    ensures Inv(run, k, Run(run, moves))
  {
    hide Inv, Next;
    if moves == [] {
      InitialInv(run, k);
    } else {
      RunKeepsInv(run, k, moves[..|moves| - 1]);
      NextKeepsInv(run, k, Run(run, moves[..|moves| - 1]), moves[|moves| - 1]);
    }
  }

  lemma InitialInv(run: Setting, k: nat)
    requires Runnable(run.plan)
    ensures Inv(run, k, INITIAL)
  {}

  /* ---------- what holds of every attempt ---------- */

  lemma TakenKeepsInv(a: Authored, run: Setting, moves: seq<Move>) returns (k: nat)
    requires Accepts(a) && PlanOf(a, run.plan)
    ensures OnePrimary(run.plan, k) && Inv(run, k, Run(run, moves))
  {
    k := TakenHasOnePrimary(a, run.plan);
    RunKeepsInv(run, k, moves);
  }

  /** The consumer keeps its own invariant, in every interleaving. */
  lemma {:induction false} ConsumerInv(run: Setting, moves: seq<Move>)
    requires Runnable(run.plan)
    ensures P.Inv(run.guarded, Run(run, moves).consumer)
  {
    if moves == [] {
      P.RunKeepsInv(run.guarded, []);
    } else {
      var s, move := Run(run, moves[..|moves| - 1]), moves[|moves| - 1];
      ConsumerInv(run, moves[..|moves| - 1]);
      hide P.Inv, P.Apply, P.Rewinds, Confirmed;
      forall step
        ensures P.Inv(run.guarded, P.Apply(run.guarded, s.consumer, step))
      {
        P.StepKeepsInv(run.guarded, s.consumer, step);
      }
    }
  }

  lemma ConsumerGoesOn(guarded: bool, st: P.State, step: P.Step)
    requires P.PhaseInv(st) && !step.Rewind? && !step.InitializeAtZero?
    ensures P.Resume(st.committed) <= P.Resume(P.Apply(guarded, st, step).committed)
  {}

  lemma OnlyRewindGoesBack(run: Setting, s: State, move: Move)
    requires Runnable(run.plan) && P.PhaseInv(s.consumer)
    requires P.Resume(Next(run, s, move).consumer.committed) < P.Resume(s.consumer.committed)
    ensures move.Engine? && s.stage.Rewinding? && !s.member && P.Rewinds(s.consumer, run.plan.rewind.toOffset)
    ensures Next(run, s, move).consumer == s.consumer.(committed := Some(run.plan.rewind.toOffset))
  {
    hide P.PhaseInv, Confirmed, P.ValidRewindBounds;
    match move
    case Engine =>
      match s.stage {
        case Starting => ConsumerGoesOn(run.guarded, s.consumer, P.Start);
        case Restarting => ConsumerGoesOn(run.guarded, s.consumer, P.Start);
        case Stopping => ConsumerGoesOn(run.guarded, s.consumer, P.Crash);
        case _ =>
      }
    case Consume(step) => if ByConsumer(step) { ConsumerGoesOn(run.guarded, s.consumer, step); }
    case _ =>
  }

  /** For every plan that the engine takes, whatever the authored dependencies ask for, and in every interleaving: a move
      sets the committed offset back only if it is the engine's rewind, and then the service is stopped, the group is
      empty, and the offset goes back to that of the one record of the log, which has been processed. */
  lemma RewindIsSafe(a: Authored, run: Setting, moves: seq<Move>, move: Move)
    requires Accepts(a) && PlanOf(a, run.plan) && Runnable(run.plan)
    requires var s := Run(run, moves);
             P.Resume(Next(run, s, move).consumer.committed) < P.Resume(s.consumer.committed)
    ensures var s := Run(run, moves);
            && move.Engine? && s.stage.Rewinding? && s.consumer.phase.Down? && !s.member
            && s.published == Some(0) && s.consumer.log == [TheRecord(run)] && P.ProcessedAt(s.consumer, 0)
            && Next(run, s, move).consumer == s.consumer.(committed := Some(0))
  {
    var s := Run(run, moves);
    var k := TakenKeepsInv(a, run, moves);
    ConsumerInv(run, moves);
    assert P.PhaseInv(s.consumer);
    hide Run, Next, P.Inv, Confirmed, P.Reserve, Accepts, PlanOf, OnePrimary;
    OnlyRewindGoesBack(run, s, move);
    assert s.consumer.ledger[0].offset == 0;
  }

  /** The rewind call itself is never refused. */
  lemma RewindSucceeds(a: Authored, run: Setting, moves: seq<Move>)
    requires Accepts(a) && PlanOf(a, run.plan) && Runnable(run.plan) && Run(run, moves).stage.Rewinding?
    ensures Next(run, Run(run, moves), Engine).stage == Restarting
  {
    var k := TakenKeepsInv(a, run, moves);
    RewindKeepsInv(run, k, Run(run, moves));
  }

  /** An attempt that completes has delivered the record exactly twice, has confirmed both, and has reserved once with
      the guard and twice without it: it tells the two apart in every interleaving. */
  lemma CompletedAttempt(a: Authored, run: Setting, moves: seq<Move>)
    requires Accepts(a) && PlanOf(a, run.plan) && Runnable(run.plan) && Run(run, moves).stage.Complete?
    ensures var st, id := Run(run, moves).consumer, run.plan.primary.event.id;
            && st.log == [TheRecord(run)] && st.committed == Some(1)
            && st.ledger == [TheDelivery(run, true), TheDelivery(run, true)]
            && st.reservations == if run.guarded then [id] else [id, id]
  {
    var k := TakenKeepsInv(a, run, moves);
    hide Run, Lives;
    assert Second(run).ledger + [TheDelivery(run, true)] == [TheDelivery(run, true), TheDelivery(run, true)];
  }

  /** So the baseline passes the invariant of one reservation, and the defective variant fails it. */
  lemma CompletedVariant(a: Authored, run: Setting, variant: string, attemptId: string, moves: seq<Move>)
    requires Accepts(a) && PlanOf(a, run.plan) && Runnable(run.plan) && Run(run, moves).stage.Complete?
    requires run.guarded == P.GuardEnabled(variant, attemptId)
    ensures var reservations, id := Run(run, moves).consumer.reservations, run.plan.primary.event.id;
            && (variant == "baseline" ==> reservations == [id])
            && (variant == "candidate-r1" ==> reservations == [id, id])
            && (variant == "flaky-r1" ==> reservations == if P.FirstAttempt(attemptId) then [id] else [id, id])
  {
    hide Run;
    CompletedAttempt(a, run, moves);
    P.FirstAttemptEnds(attemptId);
    assert "candidate-r1"[0] != "baseline"[0] && "candidate-r1"[0] != "flaky-r1"[0];
  }

  /* ---------- which attempts can complete ---------- */

  lemma RunMore(run: Setting, moves: seq<Move>, move: Move)
    requires Runnable(run.plan)
    ensures Run(run, moves + [move]) == Next(run, Run(run, moves), move)
  {
    assert (moves + [move])[..|moves|] == moves;
  }

  /** Started, in the group, and with the first n events published. */
  function PublishedFirst(run: Setting, k: nat, n: nat): State
  {
    State(Publishing(n), P.State(if k < n then [TheRecord(run)] else [], None, P.Idle(0), [], []), true,
          if k < n then Some(0) else None)
  }

  lemma StartAndJoin(run: Setting, k: nat) returns (moves: seq<Move>)
    requires Runnable(run.plan)
    ensures Run(run, moves) == PublishedFirst(run, k, 0)
  {
    RunMore(run, [], Engine);
    RunMore(run, [Engine], Join);
    moves := [Engine] + [Join];
    assert [] + [Engine] == [Engine];
  }

  lemma PublishNext(run: Setting, k: nat, n: nat)
    requires OnePrimary(run.plan, k) && n < |run.plan.publishes|
    ensures Advance(run, PublishedFirst(run, k, n)) == PublishedFirst(run, k, n + 1)
  {
    hide Targets;
    assert Targets(run.plan.publishes[n].action, run.plan.rewind) <==> n == k;
  }

  lemma {:induction false} PublishFirst(run: Setting, k: nat, n: nat) returns (moves: seq<Move>)
    requires OnePrimary(run.plan, k) && n <= |run.plan.publishes|
    ensures Run(run, moves) == PublishedFirst(run, k, n)
  {
    if n == 0 {
      moves := StartAndJoin(run, k);
    } else {
      moves := PublishFirst(run, k, n - 1);
      PublishNext(run, k, n - 1);
      hide Advance, PublishedFirst, Run;
      moves := MoveTo(run, moves, Engine, PublishedFirst(run, k, n));
    }
  }

  /** A consumer at the start of the log delivers the record. */
  lemma DeliverRecord(run: Setting, moves: seq<Move>) returns (more: seq<Move>)
    requires Runnable(run.plan) && TheRecord(run).valid
    requires Run(run, moves).consumer.phase == P.Idle(0) && Run(run, moves).consumer.log == [TheRecord(run)]
    ensures var s := Run(run, moves);
            Run(run, more) ==
            s.(consumer := P.State(s.consumer.log, Some(1), P.Idle(1), s.consumer.ledger + [TheDelivery(run, true)],
                                   P.Reserve(run.guarded, s.consumer.reservations, run.plan.primary.event.id)))
  {
    hide P.Reserve, Runnable, Advance;
    var s := Run(run, moves);
    var one := moves + [Consume(P.Poll)];
    var two := one + [Consume(P.Process)];
    var three := two + [Consume(P.Commit)];
    more := three + [Consume(P.Confirm)];
    RunMore(run, moves, Consume(P.Poll));
    RunMore(run, one, Consume(P.Process));
    RunMore(run, two, Consume(P.Commit));
    RunMore(run, three, Consume(P.Confirm));
    hide Run;
    var ledger := s.consumer.ledger + [TheDelivery(run, false)];
    assert ledger[|s.consumer.ledger| := ledger[|s.consumer.ledger|].(confirmed := true)] ==
           s.consumer.ledger + [TheDelivery(run, true)];
  }

  /** The state with one confirmed delivery, before the rewind and after it. */
  function Delivered(run: Setting, stage: Stage, committed: nat, phase: P.Phase, member: bool): State
  {
    State(stage, P.State([TheRecord(run)], Some(committed), phase, [TheDelivery(run, true)], [run.plan.primary.event.id]),
          member, Some(0))
  }

  lemma MoveTo(run: Setting, moves: seq<Move>, move: Move, to: State) returns (more: seq<Move>)
    requires Runnable(run.plan) && Next(run, Run(run, moves), move) == to
    ensures Run(run, more) == to
  {
    RunMore(run, moves, move);
    more := moves + [move];
  }

  /** Up to the delivery: everything is published, checked and delivered once. */
  lemma ReachDelivery(run: Setting, k: nat) returns (moves: seq<Move>)
    requires OnePrimary(run.plan, k) && run.plan.rewind.toOffset == 0 && TheRecord(run).valid
    ensures Run(run, moves) == Delivered(run, AwaitingDelivery, 1, P.Idle(1), true)
  {
    var published := PublishFirst(run, k, |run.plan.publishes|);
    RunMore(run, published, Engine);
    RunMore(run, published + [Engine], Engine);
    hide Run;
    moves := DeliverRecord(run, published + [Engine] + [Engine]);
    assert [] + [TheDelivery(run, true)] == [TheDelivery(run, true)];
  }

  lemma BeforeRewind(run: Setting)
    requires Runnable(run.plan) && run.plan.rewind.toOffset == 0
    ensures Advance(run, Delivered(run, AwaitingDelivery, 1, P.Idle(1), true)) ==
            Delivered(run, AwaitingCommit, 1, P.Idle(1), true)
    ensures Advance(run, Delivered(run, AwaitingCommit, 1, P.Idle(1), true)) ==
            Delivered(run, RequiringMember, 1, P.Idle(1), true)
    ensures Advance(run, Delivered(run, RequiringMember, 1, P.Idle(1), true)) ==
            Delivered(run, Stopping, 1, P.Idle(1), true)
    ensures Advance(run, Delivered(run, Stopping, 1, P.Idle(1), true)) == Delivered(run, AwaitingEmpty, 1, P.Down, true)
  {
    ConfirmedOne(TheDelivery(run, true));
    hide Confirmed;
  }

  lemma AfterRewind(run: Setting)
    requires Runnable(run.plan) && run.plan.rewind.toOffset == 0
    ensures Advance(run, Delivered(run, AwaitingEmpty, 1, P.Down, false)) == Delivered(run, Rewinding, 1, P.Down, false)
    ensures Advance(run, Delivered(run, Rewinding, 1, P.Down, false)) == Delivered(run, Restarting, 0, P.Down, false)
    ensures Advance(run, Delivered(run, Restarting, 0, P.Down, false)) ==
            Delivered(run, AwaitingRedelivery, 0, P.Idle(0), false)
  {
    hide Confirmed;
  }

  /** Stop, wait for the group to be empty, rewind and restart. */
  lemma ReachRestart(run: Setting, k: nat) returns (moves: seq<Move>)
    requires OnePrimary(run.plan, k) && run.plan.rewind.toOffset == 0 && TheRecord(run).valid
    ensures Run(run, moves) == Delivered(run, AwaitingRedelivery, 0, P.Idle(0), false)
  {
    moves := ReachDelivery(run, k);
    BeforeRewind(run);
    AfterRewind(run);
    hide Advance, Run, OnePrimary, TheRecord, TheDelivery;
    moves := MoveTo(run, moves, Engine, Delivered(run, AwaitingCommit, 1, P.Idle(1), true));
    moves := MoveTo(run, moves, Engine, Delivered(run, RequiringMember, 1, P.Idle(1), true));
    moves := MoveTo(run, moves, Engine, Delivered(run, Stopping, 1, P.Idle(1), true));
    moves := MoveTo(run, moves, Engine, Delivered(run, AwaitingEmpty, 1, P.Down, true));
    moves := MoveTo(run, moves, Leave, Delivered(run, AwaitingEmpty, 1, P.Down, false));
    moves := MoveTo(run, moves, Engine, Delivered(run, Rewinding, 1, P.Down, false));
    moves := MoveTo(run, moves, Engine, Delivered(run, Restarting, 0, P.Down, false));
    moves := MoveTo(run, moves, Engine, Delivered(run, AwaitingRedelivery, 0, P.Idle(0), false));
  }

  lemma RedeliveryAdvances(run: Setting, s: State)
    requires Runnable(run.plan) && s.stage.AwaitingRedelivery? && s.published == Some(0)
    requires s.consumer.ledger == [TheDelivery(run, true), TheDelivery(run, true)] && s.consumer.committed == Some(1)
    ensures Advance(run, s) == s.(stage := AwaitingFinalCommit)
    ensures Advance(run, s.(stage := AwaitingFinalCommit)) == s.(stage := Observing)
    ensures Advance(run, s.(stage := Observing)) == s.(stage := Complete)
  {
    ConfirmedTwo(TheDelivery(run, true), TheDelivery(run, true));
    hide Confirmed;
  }

  lemma ReachComplete(run: Setting, k: nat) returns (moves: seq<Move>)
    requires OnePrimary(run.plan, k) && run.plan.rewind.toOffset == 0 && TheRecord(run).valid
    ensures Run(run, moves).stage == Complete
  {
    var restarted := ReachRestart(run, k);
    moves := DeliverRecord(run, restarted);
    hide Run, OnePrimary, P.Reserve, Advance;
    var s := Run(run, moves);
    assert [TheDelivery(run, true)] + [TheDelivery(run, true)] == [TheDelivery(run, true), TheDelivery(run, true)];
    RedeliveryAdvances(run, s);
    moves := MoveTo(run, moves, Engine, s.(stage := AwaitingFinalCommit));
    moves := MoveTo(run, moves, Engine, s.(stage := Observing));
    moves := MoveTo(run, moves, Engine, s.(stage := Complete));
  }

  /** A taken plan has an interleaving that completes exactly when it rewinds to the offset of the first record and the
      service can handle the primary event. */
  lemma CompletesExactly(a: Authored, run: Setting)
    requires Accepts(a) && PlanOf(a, run.plan) && Runnable(run.plan)
    ensures (exists moves :: Run(run, moves).stage.Complete?) <==>
            run.plan.rewind.toOffset == 0 && run.handles(run.plan.primary.event)
  {
    hide Run;
    if moves :| Run(run, moves).stage.Complete? {
      var k := TakenKeepsInv(a, run, moves);
    }
    if run.plan.rewind.toOffset == 0 && run.handles(run.plan.primary.event) {
      var k := TakenHasOnePrimary(a, run.plan);
      var moves := ReachComplete(run, k);
    }
  }
}
