/** The order workflow's transition of an aggregate, under reordering and redelivery. */
module Transition {

  datatype Kind = OrderUpdated(status: string) | PaymentConfirmed | InventoryReserved | OrderCancelled | Unsupported

  /** An event as delivered: its own time and the logical time of the delivery, 0 standing for the zero time.
      An update without a status carries the empty one. */
  datatype Delivery = Delivery(kind: Kind, aggregateId: string, version: int, eventTime: int, deliveryTime: int)

  datatype State = State(aggregateId: string, version: int, status: string, paid: bool, reserved: bool, watermark: int,
                         lastEventTime: int)

  datatype Disposition = Applied | IgnoredStale | IgnoredLate

  datatype Transition = Next(state: State, disposition: Disposition) | Refused

  function Max(a: int, b: int): int { if a > b then a else b }

  predicate Complete(d: Delivery)
  {
    d.aggregateId != "" && d.version > 0 && d.eventTime != 0 && d.deliveryTime != 0
  }

  /** The state an event meets: if the aggregate has none yet, a pending one that takes its times from the event. */
  function Loaded(current: State, d: Delivery): State
  {
    if current.aggregateId == "" then State(d.aggregateId, 0, "pending", false, false, d.deliveryTime, d.eventTime) else current
  }

  function ApplyTransition(variant: string, stored: State, d: Delivery): Transition
  {
    if !Complete(d) then Refused
    else
      var current := Loaded(stored, d);
      if current.aggregateId != d.aggregateId then Refused
      else
        var next := current.(watermark := Max(current.watermark, d.deliveryTime));
        match d.kind
        case OrderUpdated(status) =>
          if status == "" then Refused
          else if d.version <= current.version && variant != "candidate-r3" then Next(next, IgnoredStale)
          else Next(next.(version := d.version, status := status, lastEventTime := d.eventTime), Applied)
        case PaymentConfirmed =>
          var status := if variant == "candidate-r5" then "payment_received"
                        else if next.reserved then "ready" else "payment_received";
          Next(next.(paid := true, version := Max(current.version, d.version), lastEventTime := d.eventTime, status := status),
               Applied)
        case InventoryReserved =>
          var status := if next.paid then "ready" else "inventory_received";
          Next(next.(reserved := true, version := Max(current.version, d.version), lastEventTime := d.eventTime,
                     status := status), Applied)
        case OrderCancelled =>
          if d.version <= current.version then Refused
          else if d.eventTime < d.deliveryTime && variant != "candidate-r6" then Next(next, IgnoredLate)
          else Next(next.(version := d.version, status := "cancelled", lastEventTime := d.eventTime), Applied)
        case Unsupported => Refused
  }

  /** Deliveries one after the other, up to the first that is refused. */
  function Deliver(variant: string, current: State, ds: seq<Delivery>): Transition
  {
    if ds == [] then Next(current, Applied)
    else
      match Deliver(variant, current, ds[..|ds| - 1])
      case Refused => Refused
      case Next(before, _) => ApplyTransition(variant, before, ds[|ds| - 1])
  }

  /** What is refused: an incomplete event, one of another aggregate, an update without a status, a cancellation that does
      not advance the version, and every other type. */
  lemma RefusedExactly(variant: string, current: State, d: Delivery)
    ensures ApplyTransition(variant, current, d) == Refused <==>
            || d.aggregateId == "" || d.version < 1 || d.eventTime == 0 || d.deliveryTime == 0
            || (current.aggregateId != "" && current.aggregateId != d.aggregateId)
            || (d.kind.OrderUpdated? && d.kind.status == "")
            || (d.kind.OrderCancelled? && current.aggregateId != "" && d.version <= current.version)
            || d.kind.Unsupported?
  {}

  /** What is ignored: an update that is no newer than the state, but for candidate-r3, and a cancellation whose event is
      older than its delivery, but for candidate-r6.  An ignored event moves the watermark only. */
  lemma IgnoredExactly(variant: string, current: State, d: Delivery)
    requires ApplyTransition(variant, current, d).Next?
    ensures var t, met := ApplyTransition(variant, current, d), Loaded(current, d);
            && (t.disposition == IgnoredStale <==> d.kind.OrderUpdated? && d.version <= met.version && variant != "candidate-r3")
            && (t.disposition == IgnoredLate <==> d.kind.OrderCancelled? && d.eventTime < d.deliveryTime && variant != "candidate-r6")
            && (t.disposition != Applied ==>
                  t.state == met.(watermark := if d.deliveryTime > met.watermark then d.deliveryTime else met.watermark))
  {}

  /* ---------- immediate redelivery ---------- */

  /** Under every variant the same delivery again leaves the state as it is, except that an applied
      cancellation is refused the second time. */
  lemma RedeliveryIsHarmless(variant: string, current: State, d: Delivery)
    requires ApplyTransition(variant, current, d).Next?
    ensures var first := ApplyTransition(variant, current, d);
            var second := ApplyTransition(variant, first.state, d);
            if d.kind.OrderCancelled? && first.disposition.Applied? then second == Refused
            else second.Next? && second.state == first.state
  {}

  /* ---------- order updates ---------- */

  /** Complete updates of one aggregate in which a version stands for one event. */
  ghost predicate Updates(aggregateId: string, ds: seq<Delivery>)
  {
    && (forall i :: 0 <= i < |ds| ==> IsUpdate(aggregateId, ds[i]))
    && forall i, j :: 0 <= i < |ds| && 0 <= j < |ds| && ds[i].version == ds[j].version ==> SameEvent(ds[i], ds[j])
  }

  ghost predicate IsUpdate(aggregateId: string, d: Delivery)
  {
    d.kind.OrderUpdated? && d.kind.status != "" && Complete(d) && d.aggregateId == aggregateId
  }

  ghost predicate SameEvent(d: Delivery, e: Delivery)
  {
    d.kind == e.kind && d.version == e.version && d.eventTime == e.eventTime
  }

  function LatestDelivery(watermark: int, ds: seq<Delivery>): int
  {
    if ds == [] then watermark else Max(LatestDelivery(watermark, ds[..|ds| - 1]), ds[|ds| - 1].deliveryTime)
  }

  function HighestVersion(version: int, ds: seq<Delivery>): int
  {
    if ds == [] then version else Max(HighestVersion(version, ds[..|ds| - 1]), ds[|ds| - 1].version)
  }

  /** The state holds the update of its version, or is the one the updates met if none of them was newer. */
  ghost predicate HoldsHighest(base: State, ds: seq<Delivery>, end: State)
  {
    && end.version == HighestVersion(base.version, ds)
    && end.watermark == LatestDelivery(base.watermark, ds)
    && end == base.(version := end.version, status := end.status, watermark := end.watermark, lastEventTime := end.lastEventTime)
    && (end.version == base.version ==> end.status == base.status && end.lastEventTime == base.lastEventTime)
    && (end.version > base.version ==> exists k :: 0 <= k < |ds| && HoldsUpdate(end, ds[k]))
  }

  ghost predicate HoldsUpdate(s: State, d: Delivery)
  {
    d.kind.OrderUpdated? && s.version == d.version && s.status == d.kind.status && s.lastEventTime == d.eventTime
  }

  /** The state is one of the aggregate, or none, as before the aggregate's first event. */
  predicate Meets(base: State, aggregateId: string) { base.aggregateId == "" || base.aggregateId == aggregateId }

  /** The state that the first of the deliveries meets. */
  function Met(base: State, ds: seq<Delivery>): State { if ds == [] then base else Loaded(base, ds[0]) }

  /** The latest delivery time, of the state or of a delivery. */
  function Watermark(base: State, ds: seq<Delivery>): int { LatestDelivery(Met(base, ds).watermark, ds) }

  /** The deliveries may as well start from the state that the first of them meets. */
  lemma {:induction false} DeliverFromMet(variant: string, base: State, ds: seq<Delivery>)
    requires ds != [] ==> Complete(ds[0])
    ensures Deliver(variant, base, ds) == Deliver(variant, Met(base, ds), ds)
    decreases |ds|
  {
    if |ds| > 1 { DeliverFromMet(variant, base, ds[..|ds| - 1]); }
  }

  /** Any delivery order and any redelivery of updates ends in the state of the highest version, with the
      watermark at the latest delivery. */
  lemma {:induction false} UpdatesEndAtHighest(variant: string, base: State, aggregateId: string, ds: seq<Delivery>)
    requires variant != "candidate-r3" && Meets(base, aggregateId) && Updates(aggregateId, ds)
    ensures Deliver(variant, base, ds).Next? && HoldsHighest(Met(base, ds), ds, Deliver(variant, base, ds).state)
    ensures HighestVersion(Met(base, ds).version, ds) >= Met(base, ds).version
  {
    if ds != [] {
      assert IsUpdate(aggregateId, ds[0]);
      DeliverFromMet(variant, base, ds);
      UpdatesOfLoaded(variant, Met(base, ds), ds);
    }
  }

  lemma {:induction false} UpdatesOfLoaded(variant: string, base: State, ds: seq<Delivery>)
    requires variant != "candidate-r3" && base.aggregateId != "" && Updates(base.aggregateId, ds)
    ensures Deliver(variant, base, ds).Next? && HoldsHighest(base, ds, Deliver(variant, base, ds).state)
    ensures HighestVersion(base.version, ds) >= base.version
  {
    if ds != [] {
      var last := |ds| - 1;
      var init := ds[..last];
      UpdatesOfLoaded(variant, base, init);
      var before, end := Deliver(variant, base, init).state, Deliver(variant, base, ds).state;
      if ds[last].version <= before.version {
        if before.version > base.version {
          var k :| 0 <= k < |init| && HoldsUpdate(before, init[k]);
          assert HoldsUpdate(end, ds[k]);
        }
      } else {
        assert HoldsUpdate(end, ds[last]);
      }
    }
  }

  ghost predicate HasEvent(ds: seq<Delivery>, d: Delivery)
  {
    exists j :: 0 <= j < |ds| && SameEvent(d, ds[j])
  }

  /** Every event delivered in the first list is delivered in the second. */
  ghost predicate SameEvents(a: seq<Delivery>, b: seq<Delivery>)
  {
    forall d :: d in a ==> HasEvent(b, d)
  }

  lemma {:induction false} HighestIsReached(version: int, ds: seq<Delivery>, bound: int)
    ensures forall i :: 0 <= i < |ds| ==> ds[i].version <= HighestVersion(version, ds)
    ensures (forall i :: 0 <= i < |ds| ==> ds[i].version <= bound) && version <= bound ==> HighestVersion(version, ds) <= bound
    ensures version <= HighestVersion(version, ds)
  {
    if ds != [] { HighestIsReached(version, ds[..|ds| - 1], bound); }
  }

  lemma SameHighest(version: int, a: seq<Delivery>, b: seq<Delivery>)
    requires SameEvents(a, b)
    ensures HighestVersion(version, a) <= HighestVersion(version, b)
  {
    HighestIsReached(version, b, 0);
    forall i | 0 <= i < |a|
      ensures a[i].version <= HighestVersion(version, b)
    {
      assert HasEvent(b, a[i]);
      var j :| 0 <= j < |b| && SameEvent(a[i], b[j]);
    }
    HighestIsReached(version, a, HighestVersion(version, b));
  }

  /** Confluence: deliveries of the same updates, in any order and any number, end alike but for the watermark, which
      is that of the latest delivery; with the same delivery times they end in the same state. */
  lemma {:induction false} UpdatesAreConfluent(variant: string, base: State, aggregateId: string, a: seq<Delivery>, b: seq<Delivery>)
    requires variant != "candidate-r3" && Meets(base, aggregateId)
    requires Updates(aggregateId, a) && Updates(aggregateId, b) && SameEvents(a, b) && SameEvents(b, a)
    ensures Deliver(variant, base, a).Next? && Deliver(variant, base, b).Next?
    ensures var endA, endB := Deliver(variant, base, a).state, Deliver(variant, base, b).state;
            && endA == endB.(watermark := Watermark(base, a)) && endB.watermark == Watermark(base, b)
            && (SameDeliveries(a, b) ==> endA == endB)
  {
    SameEventsMeetAlike(base, aggregateId, a, b);
    hide Deliver, Updates, SameEvents, HoldsHighest, Loaded, Met;
    UpdatesEndAtHighest(variant, base, aggregateId, a);
    UpdatesEndAtHighest(variant, base, aggregateId, b);
    SameEnd(base, aggregateId, a, b, Deliver(variant, base, a).state, Deliver(variant, base, b).state);
    if SameDeliveries(a, b) {
      LaterWatermark(base, a, b);
      LaterWatermark(base, b, a);
    }
  }

  /** The first event of an aggregate leaves its times only where they are overwritten. */
  lemma SameEventsMeetAlike(base: State, aggregateId: string, a: seq<Delivery>, b: seq<Delivery>)
    requires Updates(aggregateId, a) && Updates(aggregateId, b) && SameEvents(a, b) && SameEvents(b, a)
    ensures MeetAlike(base, a, b)
    ensures HighestVersion(Met(base, a).version, a) == HighestVersion(Met(base, b).version, b)
    ensures Met(base, a) == Met(base, b) || HighestVersion(Met(base, a).version, a) > Met(base, a).version
  {
    if b != [] { StillSome(b, a); }
    if a != [] {
      StillSome(a, b);
      assert IsUpdate(aggregateId, a[0]) && IsUpdate(aggregateId, b[0]);
    }
    hide Updates, SameEvents;
    SameHighest(Met(base, a).version, a, b);
    SameHighest(Met(base, a).version, b, a);
    HighestIsReached(Met(base, a).version, a, 0);
  }

  lemma StillSome(a: seq<Delivery>, b: seq<Delivery>)
    requires SameEvents(a, b) && a != []
    ensures b != []
  {
    assert HasEvent(b, a[0]);
  }

  /** What the first of the deliveries meets is the same but for its times. */
  ghost predicate MeetAlike(base: State, a: seq<Delivery>, b: seq<Delivery>)
  {
    var metA, metB := Met(base, a), Met(base, b);
    metA == metB.(watermark := metA.watermark, lastEventTime := metA.lastEventTime)
  }

  lemma SameEnd(base: State, aggregateId: string, a: seq<Delivery>, b: seq<Delivery>, endA: State, endB: State)
    requires HoldsHighest(Met(base, a), a, endA) && HoldsHighest(Met(base, b), b, endB)
    requires Updates(aggregateId, b) && SameEvents(a, b) && MeetAlike(base, a, b)
    requires HighestVersion(Met(base, a).version, a) == HighestVersion(Met(base, b).version, b) >= Met(base, a).version
    requires Met(base, a) == Met(base, b) || HighestVersion(Met(base, a).version, a) > Met(base, a).version
    ensures endA == endB.(watermark := Watermark(base, a)) && endB.watermark == Watermark(base, b)
  {
    hide HighestVersion, LatestDelivery, Met;
    if endA.version > Met(base, a).version {
      var i :| 0 <= i < |a| && HoldsUpdate(endA, a[i]);
      var j :| 0 <= j < |b| && HoldsUpdate(endB, b[j]);
      assert HasEvent(b, a[i]);
      var k :| 0 <= k < |b| && SameEvent(a[i], b[k]);
      assert SameEvent(b[j], b[k]);
    }
  }

  /** The defect of candidate-r3: the last update delivered wins, whatever its version. */
  lemma {:induction false} StaleCandidateEndsAtLast(base: State, aggregateId: string, ds: seq<Delivery>)
    requires Meets(base, aggregateId) && Updates(aggregateId, ds) && ds != []
    ensures Deliver("candidate-r3", base, ds).Next?
    ensures HoldsUpdate(Deliver("candidate-r3", base, ds).state, ds[|ds| - 1])
  {
    StaleCandidateTakesAll(base, aggregateId, ds[..|ds| - 1]);
  }

  lemma {:induction false} StaleCandidateTakesAll(base: State, aggregateId: string, ds: seq<Delivery>)
    requires Meets(base, aggregateId) && Updates(aggregateId, ds)
    ensures Deliver("candidate-r3", base, ds).Next? && Meets(Deliver("candidate-r3", base, ds).state, aggregateId)
  {
    if ds != [] { StaleCandidateTakesAll(base, aggregateId, ds[..|ds| - 1]); }
  }

  /* ---------- payments and reservations ---------- */

  ghost predicate Confirmations(aggregateId: string, ds: seq<Delivery>)
  {
    forall i :: 0 <= i < |ds| ==> IsConfirmation(aggregateId, ds[i])
  }

  ghost predicate IsConfirmation(aggregateId: string, d: Delivery)
  {
    (d.kind.PaymentConfirmed? || d.kind.InventoryReserved?) && Complete(d) && d.aggregateId == aggregateId
  }

  ghost predicate Includes(ds: seq<Delivery>, kind: Kind)
  {
    exists i :: 0 <= i < |ds| && ds[i].kind == kind
  }

  function StatusOf(paid: bool, reserved: bool, otherwise: string): string
  {
    if paid && reserved then "ready" else if paid then "payment_received" else if reserved then "inventory_received" else otherwise
  }

  /** Flags, status, version and watermark after confirmations; only the last event time is that of the last delivery. */
  ghost predicate HoldsConfirmations(base: State, ds: seq<Delivery>, end: State)
  {
    && end.paid == (base.paid || Includes(ds, PaymentConfirmed))
    && end.reserved == (base.reserved || Includes(ds, InventoryReserved))
    && end.status == StatusOf(end.paid, end.reserved, base.status)
    && end.version == HighestVersion(base.version, ds)
    && end.watermark == LatestDelivery(base.watermark, ds)
    && end.aggregateId == base.aggregateId
    && end.lastEventTime == if ds == [] then base.lastEventTime else ds[|ds| - 1].eventTime
  }

  /** Any mix of payment and inventory events ends with flags, version, status and watermark that do not
      depend on the order; only the last event time is that of the last delivery. */
  lemma {:induction false} ConfirmationsEnd(variant: string, base: State, aggregateId: string, ds: seq<Delivery>)
    requires variant != "candidate-r5" && Meets(base, aggregateId) && Confirmations(aggregateId, ds) && ds != []
    ensures Deliver(variant, base, ds).Next? && HoldsConfirmations(Met(base, ds), ds, Deliver(variant, base, ds).state)
  {
    assert IsConfirmation(aggregateId, ds[0]);
    DeliverFromMet(variant, base, ds);
    ConfirmationsOfLoaded(variant, Met(base, ds), ds);
  }

  /** From the first event of an aggregate on, the flags tell what was confirmed, and the status is ready once both are. */
  lemma FreshConfirmationsEnd(variant: string, aggregateId: string, ds: seq<Delivery>, none: State)
    requires variant != "candidate-r5" && none.aggregateId == "" && Confirmations(aggregateId, ds) && ds != []
    ensures Deliver(variant, none, ds).Next?
    ensures var end, paid, reserved := Deliver(variant, none, ds).state, Includes(ds, PaymentConfirmed), Includes(ds, InventoryReserved);
            && end.aggregateId == aggregateId && (end.paid <==> paid) && (end.reserved <==> reserved)
            && end.status == (if paid && reserved then "ready" else if paid then "payment_received" else "inventory_received")
            && end.version == HighestVersion(0, ds) && end.watermark == LatestDelivery(ds[0].deliveryTime, ds)
  {
    hide Deliver, LatestDelivery, HighestVersion, Includes;
    ConfirmationsEnd(variant, none, aggregateId, ds);
    assert IsConfirmation(aggregateId, ds[0]);
    assert ds[0].kind.PaymentConfirmed? ==> Includes(ds, PaymentConfirmed) by { FirstIsIncluded(ds); }
    assert ds[0].kind.InventoryReserved? ==> Includes(ds, InventoryReserved) by { FirstIsIncluded(ds); }
  }

  lemma FirstIsIncluded(ds: seq<Delivery>)
    requires ds != []
    ensures Includes(ds, ds[0].kind)
  {}

  /** Updates alone leave a new aggregate unpaid and unreserved, and take it to the status of the highest version. */
  lemma FreshUpdatesEnd(variant: string, aggregateId: string, ds: seq<Delivery>, none: State)
    requires variant != "candidate-r3" && none.aggregateId == "" && Updates(aggregateId, ds) && ds != []
    ensures Deliver(variant, none, ds).Next?
    ensures var end := Deliver(variant, none, ds).state;
            && end.aggregateId == aggregateId && !end.paid && !end.reserved
            && end.version == HighestVersion(0, ds) && exists k :: 0 <= k < |ds| && HoldsUpdate(end, ds[k])
  {
    hide Deliver, LatestDelivery;
    UpdatesEndAtHighest(variant, none, aggregateId, ds);
    assert IsUpdate(aggregateId, ds[0]);
    HighestIsReached(0, ds, 0);
  }

  lemma {:induction false} ConfirmationsOfLoaded(variant: string, base: State, ds: seq<Delivery>)
    requires variant != "candidate-r5" && base.aggregateId != "" && Confirmations(base.aggregateId, ds) && ds != []
    ensures Deliver(variant, base, ds).Next? && HoldsConfirmations(base, ds, Deliver(variant, base, ds).state)
  {
    var last := |ds| - 1;
    var init := ds[..last];
    IncludesNext(ds, PaymentConfirmed);
    IncludesNext(ds, InventoryReserved);
    if last > 0 {
      ConfirmationsOfLoaded(variant, base, init);
    } else {
      assert init == [];
    }
  }

  lemma IncludesNext(ds: seq<Delivery>, kind: Kind)
    requires ds != []
    ensures Includes(ds, kind) <==> Includes(ds[..|ds| - 1], kind) || ds[|ds| - 1].kind == kind
  {
    var init := ds[..|ds| - 1];
    if Includes(init, kind) {
      var i :| 0 <= i < |init| && init[i].kind == kind;
      assert ds[i].kind == kind;
    }
    if Includes(ds, kind) {
      var i :| 0 <= i < |ds| && ds[i].kind == kind;
      assert i == |ds| - 1 || init[i].kind == kind;
    }
  }

  /** Neither order nor number matters: deliveries of the same confirmations end alike but for the watermark, which is that
      of the latest delivery, and the last event time; with the same delivery times only the latter may differ. */
  lemma {:induction false} ConfirmationsAreConfluent(variant: string, base: State, aggregateId: string, a: seq<Delivery>, b: seq<Delivery>)
    requires variant != "candidate-r5" && Meets(base, aggregateId)
    requires Confirmations(aggregateId, a) && Confirmations(aggregateId, b) && SameEvents(a, b) && SameEvents(b, a)
    ensures Deliver(variant, base, a).Next? && Deliver(variant, base, b).Next?
    ensures var endA, endB := Deliver(variant, base, a).state, Deliver(variant, base, b).state;
            && endA == endB.(watermark := Watermark(base, a), lastEventTime := endA.lastEventTime)
            && endB.watermark == Watermark(base, b)
            && (SameDeliveries(a, b) ==> endA == endB.(lastEventTime := endA.lastEventTime))
  {
    if a != [] { StillSome(a, b); }
    if b != [] {
      StillSome(b, a);
      assert IsConfirmation(aggregateId, a[0]) && IsConfirmation(aggregateId, b[0]);
      assert MeetAlike(base, a, b);
      hide Deliver, Confirmations, SameEvents, HighestVersion, LatestDelivery, Includes, Met;
      ConfirmationsEnd(variant, base, aggregateId, a);
      ConfirmationsEnd(variant, base, aggregateId, b);
      SameHighest(Met(base, a).version, a, b);
      SameHighest(Met(base, a).version, b, a);
      SameKinds(a, b, PaymentConfirmed);
      SameKinds(a, b, InventoryReserved);
      if SameDeliveries(a, b) {
        LaterWatermark(base, a, b);
        LaterWatermark(base, b, a);
      }
    }
  }

  /** The same deliveries, in any order and any number. */
  ghost predicate SameDeliveries(a: seq<Delivery>, b: seq<Delivery>)
  {
    forall d :: d in a <==> d in b
  }

  lemma SameKinds(a: seq<Delivery>, b: seq<Delivery>, kind: Kind)
    requires SameEvents(a, b) && SameEvents(b, a)
    ensures Includes(a, kind) <==> Includes(b, kind)
  {
    if Includes(a, kind) { KindIsIncluded(a, b, kind); }
    if Includes(b, kind) { KindIsIncluded(b, a, kind); }
  }

  lemma KindIsIncluded(a: seq<Delivery>, b: seq<Delivery>, kind: Kind)
    requires SameEvents(a, b) && Includes(a, kind)
    ensures Includes(b, kind)
  {
    var i :| 0 <= i < |a| && a[i].kind == kind;
    assert HasEvent(b, a[i]);
  }

  lemma {:induction false} WatermarkBounds(watermark: int, ds: seq<Delivery>, bound: int)
    ensures forall i :: 0 <= i < |ds| ==> ds[i].deliveryTime <= LatestDelivery(watermark, ds)
    ensures watermark <= LatestDelivery(watermark, ds)
    ensures watermark <= bound && (forall i :: 0 <= i < |ds| ==> ds[i].deliveryTime <= bound) ==> LatestDelivery(watermark, ds) <= bound
  {
    if ds != [] { WatermarkBounds(watermark, ds[..|ds| - 1], bound); }
  }

  lemma LaterWatermark(base: State, a: seq<Delivery>, b: seq<Delivery>)
    requires SameDeliveries(a, b)
    ensures Watermark(base, a) <= Watermark(base, b)
  {
    var met := Met(base, b).watermark;
    WatermarkBounds(met, b, 0);
    forall i | 0 <= i < |a|
      ensures a[i].deliveryTime <= LatestDelivery(met, b)
    {
      assert a[i] in a;
    }
    assert b != [] ==> b[0] in a;
    WatermarkBounds(Met(base, a).watermark, a, LatestDelivery(met, b));
  }

  /** The defect of candidate-r5: it ends like every other variant but for the status, and there exactly when a
      payment is delivered last although the stock is reserved. */
  lemma {:induction false} CrossStreamCandidateForgets(base: State, aggregateId: string, ds: seq<Delivery>)
    requires Meets(base, aggregateId) && Confirmations(aggregateId, ds)
    ensures Deliver("baseline", base, ds).Next? && Deliver("candidate-r5", base, ds).Next?
    ensures var right, wrong := Deliver("baseline", base, ds).state, Deliver("candidate-r5", base, ds).state;
            && Meets(right, aggregateId) && wrong == right.(status := wrong.status)
            && (wrong.status != right.status <==> ds != [] && ds[|ds| - 1].kind.PaymentConfirmed? && right.reserved)
  {
    if ds != [] { CrossStreamCandidateForgets(base, aggregateId, ds[..|ds| - 1]); }
  }

  /** Updates and payments do not commute.  The two orders agree on the status exactly when the update is no newer
      than the payment and the state they meet, or sets the very status that a payment sets there; they agree on the
      whole state exactly when moreover an applied update has the payment's time. */
  lemma UpdateAndPaymentCommuteExactly(variant: string, base: State, update: Delivery, payment: Delivery)
    requires variant != "candidate-r3" && variant != "candidate-r5"
    requires Complete(update) && Complete(payment) && update.aggregateId == payment.aggregateId
    requires Meets(base, update.aggregateId)
    requires update.kind.OrderUpdated? && update.kind.status != "" && payment.kind.PaymentConfirmed?
    ensures var first := Deliver(variant, base, [update, payment]);
            var second := Deliver(variant, base, [payment, update]);
            var met := Loaded(base, update);
            var stale := update.version <= Max(met.version, payment.version);
            var sameStatus := update.kind.status == if met.reserved then "ready" else "payment_received";
            && first.Next? && second.Next?
            && first.state.version == second.state.version == Max(Max(met.version, payment.version), update.version)
            && (first.state.status == second.state.status <==> stale || sameStatus)
            && (first.state == second.state <==> stale || (sameStatus && update.eventTime == payment.eventTime))
  {
    PairDelivered(variant, base, update, payment);
    PairDelivered(variant, base, payment, update);
  }

  lemma PairDelivered(variant: string, base: State, a: Delivery, b: Delivery)
    requires ApplyTransition(variant, base, a).Next?
    ensures Deliver(variant, base, [a, b]) == ApplyTransition(variant, ApplyTransition(variant, base, a).state, b)
  {
    hide ApplyTransition;
    assert [a, b][..1] == [a] && [a][..0] == [];
    assert Deliver(variant, base, []) == Next(base, Applied);
    assert Deliver(variant, base, [a]) == ApplyTransition(variant, base, a);
  }

  /* ---------- cancellations ---------- */

  ghost predicate Cancellations(aggregateId: string, ds: seq<Delivery>)
  {
    forall i :: 0 <= i < |ds| ==> IsCancellation(aggregateId, ds[i])
  }

  ghost predicate IsCancellation(aggregateId: string, d: Delivery)
  {
    d.kind.OrderCancelled? && Complete(d) && d.aggregateId == aggregateId
  }

  /** The event happened before the logical time at which it is delivered. */
  predicate IsLate(d: Delivery) { d.deliveryTime > d.eventTime }

  ghost predicate NoneAfter(ds: seq<Delivery>, k: int)
  {
    forall i :: 0 <= i < |ds| && i > k ==> IsLate(ds[i])
  }

  /** The last cancellation that is not late; -1 when all are. */
  ghost function LastOnTime(ds: seq<Delivery>): (k: int)
    ensures -1 <= k < |ds| && (k >= 0 ==> !IsLate(ds[k])) && NoneAfter(ds, k)
  {
    if ds == [] then -1
    else if IsLate(ds[|ds| - 1]) then LastOnTime(ds[..|ds| - 1])
    else |ds| - 1
  }

  /** The aggregate is cancelled by this event. */
  ghost predicate CancelledBy(end: State, d: Delivery)
  {
    end.status == "cancelled" && end.version == d.version && end.lastEventTime == d.eventTime
  }

  /** The state is cancelled by the last cancellation on time, and untouched but for the watermark if there is none. */
  ghost predicate HoldsCancellation(base: State, ds: seq<Delivery>, end: State)
  {
    var k := LastOnTime(ds);
    && end.watermark == LatestDelivery(base.watermark, ds)
    && end.aggregateId == base.aggregateId && end.paid == base.paid && end.reserved == base.reserved
    && if k < 0 then end == base.(watermark := end.watermark) else CancelledBy(end, ds[k])
  }

  /** The version that a cancellation must pass: that of the last one on time before it, or of the state they met. */
  ghost function VersionBefore(base: State, ds: seq<Delivery>, i: nat): int
    requires i <= |ds|
  {
    var k := LastOnTime(ds[..i]);
    if k < 0 then base.version else ds[k].version
  }

  ghost predicate Advances(base: State, ds: seq<Delivery>, i: nat)
    requires i < |ds|
  {
    ds[i].version > VersionBefore(base, ds, i)
  }

  /** Cancellations are taken exactly if each is newer than the state it meets, and then the last one that is not late
      cancels the aggregate at its version and time; late ones leave all but the watermark alone. */
  lemma {:induction false} CancellationsEnd(variant: string, base: State, aggregateId: string, ds: seq<Delivery>)
    requires variant != "candidate-r6" && Meets(base, aggregateId) && Cancellations(aggregateId, ds)
    ensures Deliver(variant, base, ds).Next? <==> forall i :: 0 <= i < |ds| ==> Advances(Met(base, ds), ds, i)
    ensures Deliver(variant, base, ds).Next? ==> HoldsCancellation(Met(base, ds), ds, Deliver(variant, base, ds).state)
  {
    if ds != [] {
      assert IsCancellation(aggregateId, ds[0]);
      DeliverFromMet(variant, base, ds);
      CancellationsOfLoaded(variant, Met(base, ds), ds);
    }
  }

  lemma {:induction false} CancellationsOfLoaded(variant: string, base: State, ds: seq<Delivery>)
    requires variant != "candidate-r6" && base.aggregateId != "" && Cancellations(base.aggregateId, ds)
    ensures Deliver(variant, base, ds).Next? <==> forall i :: 0 <= i < |ds| ==> Advances(base, ds, i)
    ensures Deliver(variant, base, ds).Next? ==> HoldsCancellation(base, ds, Deliver(variant, base, ds).state)
  {
    if ds != [] {
      hide ApplyTransition, Advances, HoldsCancellation, CancelledBy;
      var last := |ds| - 1;
      CancellationsOfLoaded(variant, base, ds[..last]);
      AdvancesNext(base, ds);
      assert IsCancellation(base.aggregateId, ds[last]);
      if Deliver(variant, base, ds[..last]).Next? {
        NextCancellation(variant, base, ds, Deliver(variant, base, ds[..last]).state);
      }
    } else {
      assert HoldsCancellation(base, ds, base);
    }
  }

  lemma AdvancesNext(base: State, ds: seq<Delivery>)
    requires ds != []
    ensures var last := |ds| - 1;
            (forall i :: 0 <= i < |ds| ==> Advances(base, ds, i)) <==>
            (forall i :: 0 <= i < last ==> Advances(base, ds[..last], i)) && Advances(base, ds, last)
  {
    var last := |ds| - 1;
    hide LastOnTime;
    forall i | 0 <= i < last
      ensures Advances(base, ds, i) <==> Advances(base, ds[..last], i)
    {
      assert ds[..last][..i] == ds[..i];
    }
  }

  lemma NextCancellation(variant: string, base: State, ds: seq<Delivery>, before: State)
    requires ds != [] && variant != "candidate-r6" && base.aggregateId != ""
    requires IsCancellation(base.aggregateId, ds[|ds| - 1]) && HoldsCancellation(base, ds[..|ds| - 1], before)
    ensures var after := ApplyTransition(variant, before, ds[|ds| - 1]);
            (after.Next? <==> Advances(base, ds, |ds| - 1)) && (after.Next? ==> HoldsCancellation(base, ds, after.state))
  {
    assert before.version == VersionBefore(base, ds, |ds| - 1);
  }

  /** The versions ascend from that of the state they met. */
  ghost predicate VersionsAscend(base: State, ds: seq<Delivery>)
  {
    forall i :: 0 <= i < |ds| ==> Ascends(base, ds, i)
  }

  predicate Ascends(base: State, ds: seq<Delivery>, i: nat)
    requires i < |ds|
  {
    ds[i].version > if i == 0 then base.version else ds[i - 1].version
  }

  /** The defect of candidate-r6: it cancels at the last cancellation delivered, late or not. */
  lemma {:induction false} LateCandidateCancels(base: State, aggregateId: string, ds: seq<Delivery>)
    requires Meets(base, aggregateId) && Cancellations(aggregateId, ds)
    ensures Deliver("candidate-r6", base, ds).Next? <==> VersionsAscend(Met(base, ds), ds)
    ensures Deliver("candidate-r6", base, ds).Next? && ds != [] ==>
              CancelledBy(Deliver("candidate-r6", base, ds).state, ds[|ds| - 1])
  {
    if ds != [] {
      assert IsCancellation(aggregateId, ds[0]);
      DeliverFromMet("candidate-r6", base, ds);
      LateCandidateOfLoaded(Met(base, ds), ds);
    }
  }

  lemma {:induction false} LateCandidateOfLoaded(base: State, ds: seq<Delivery>)
    requires base.aggregateId != "" && Cancellations(base.aggregateId, ds)
    ensures var end := Deliver("candidate-r6", base, ds);
            && (end.Next? <==> VersionsAscend(base, ds))
            && (end.Next? ==>
                  && end.state.aggregateId == base.aggregateId
                  && end.state.version == (if ds == [] then base.version else ds[|ds| - 1].version)
                  && (ds != [] ==> CancelledBy(end.state, ds[|ds| - 1])))
  {
    if ds != [] {
      var last := |ds| - 1;
      LateCandidateOfLoaded(base, ds[..last]);
      assert IsCancellation(base.aggregateId, ds[last]);
      assert forall i :: 0 <= i < last ==> (Ascends(base, ds, i) <==> Ascends(base, ds[..last], i));
      assert VersionsAscend(base, ds) <==> VersionsAscend(base, ds[..last]) && Ascends(base, ds, last);
    }
  }

  /** Where candidate-r6 takes the cancellations, it ends like every other variant exactly if the last of them is on time. */
  lemma LateCandidateDiffers(variant: string, base: State, aggregateId: string, ds: seq<Delivery>)
    requires variant != "candidate-r6" && Meets(base, aggregateId) && Cancellations(aggregateId, ds) && ds != []
    requires Deliver("candidate-r6", base, ds).Next?
    ensures Deliver(variant, base, ds).Next?
    ensures var right, wrong := Deliver(variant, base, ds).state, Deliver("candidate-r6", base, ds).state;
            && CancelledBy(wrong, ds[|ds| - 1])
            && (CancelledBy(right, ds[|ds| - 1]) <==> !IsLate(ds[|ds| - 1]))
  {
    LateCandidateCancels(base, aggregateId, ds);
    CancellationsEnd(variant, base, aggregateId, ds);
    var met := Met(base, ds);
    forall i | 0 <= i < |ds|
      ensures Advances(met, ds, i)
    {
      VersionsGrow(met, ds, i);
    }
    VersionsGrow(met, ds, |ds| - 1);
    hide Deliver;
    assert ds[..|ds|] == ds;
  }

  lemma {:induction false} VersionsGrow(base: State, ds: seq<Delivery>, i: nat)
    requires VersionsAscend(base, ds) && i < |ds|
    ensures base.version < ds[i].version && forall j :: 0 <= j < i ==> ds[j].version < ds[i].version
  {
    assert Ascends(base, ds, i);
    if i > 0 { VersionsGrow(base, ds, i - 1); }
  }

  /** On any events candidate-r6 goes another way only at a cancellation that is newer than the state and late. */
  lemma LateCandidateStep(variant: string, current: State, d: Delivery)
    requires variant != "candidate-r3" && variant != "candidate-r5" && variant != "candidate-r6"
    ensures var right, wrong := ApplyTransition(variant, current, d), ApplyTransition("candidate-r6", current, d);
            right == wrong <==>
            !(right.Next? && d.kind.OrderCancelled? && d.version > Loaded(current, d).version && IsLate(d))
  {}
}
