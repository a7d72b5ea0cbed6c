/** The schedule bounds of a benchmark workload, checked in 64-bit signed arithmetic before anything
    is built. */
module Workload {
  import opened Arithmetic

  const MAX_INT64 := 0x7fff_ffff_ffff_ffff
  const MIN_INT64 := -0x8000_0000_0000_0000
  const SECOND := 1_000_000_000
  const MILLISECOND := 1_000_000
  const MAX_OPERATIONS := 32
  const MAX_RATE := 500
  const MAX_ROUNDS := 20
  const MAX_REQUESTS := 1_000_000
  const MAX_RUN := 7200 * SECOND

  type Int64 = x: int | MIN_INT64 <= x <= MAX_INT64 witness 0

  /** Two's complement wrap-around of a 64-bit result. */
  function Wrap(x: int): Int64
  {
    (x + 0x8000_0000_0000_0000) % 0x1_0000_0000_0000_0000 - 0x8000_0000_0000_0000
  }

  /** Signed division, truncated toward zero. */
  function Quotient(a: nat, b: int): int
    requires b != 0
  {
    if b > 0 then a / b else -(a / -b)
  }

  datatype Operation = Operation(id: string, weight: Int64)

  datatype Schedule = Schedule(
    ratePerSecond: Int64,
    warmup: Int64,
    measurement: Int64,
    requestTimeout: Int64,
    rounds: Int64)

  datatype Rule =
    | OperationCount
    | OperationId
    | UniqueOperation
    | OperationWeight
    | IntegerOverflow
    | RateBound
    | RoundBound
    | DurationBound
    | RequestInventory
    | RunBound

  /** What a violation points to. */
  datatype Place =
    | Operations
    | OperationAt(index: nat)
    | Rate
    | Rounds
    | Warmup
    | Measurement
    | RequestTimeout
    | WholeSchedule

  datatype Violation = Violation(place: Place, rule: Rule)

  /** One through 64 lower-case letters, digits and inner hyphens. */
  predicate ValidIdentifier(id: string)
  {
    && 1 <= |id| <= 64 && id[0] != '-' && id[|id| - 1] != '-'
    && forall i :: 0 <= i < |id| ==> id[i] == '-' || 'a' <= id[i] <= 'z' || '0' <= id[i] <= '9'
  }

  function TotalWeight(operations: seq<Operation>): int
  {
    if operations == [] then 0
    else TotalWeight(operations[..|operations| - 1]) + operations[|operations| - 1].weight
  }

  /** Requests issued by one phase: the whole number of ticks of the rate in the duration. */
  function RequestCount(rate: int, duration: int): int
  {
    rate * duration / SECOND
  }

  predicate OperationsAccepted(operations: seq<Operation>)
  {
    && 1 <= |operations| <= MAX_OPERATIONS
    && (forall i :: 0 <= i < |operations| ==> ValidIdentifier(operations[i].id) && operations[i].weight > 0)
    && (forall i, j :: 0 <= i < j < |operations| ==> operations[i].id != operations[j].id)
    && TotalWeight(operations) <= MAX_INT64
  }

  predicate DurationsAccepted(s: Schedule)
  {
    && 100 * MILLISECOND <= s.warmup <= 60 * SECOND
    && SECOND <= s.measurement <= 300 * SECOND
    && MILLISECOND <= s.requestTimeout <= 30 * SECOND
  }

  /** What an accepted schedule is, in exact arithmetic. */
  predicate ScheduleAccepted(s: Schedule)
  {
    && 1 <= s.ratePerSecond <= MAX_RATE
    && 4 <= s.rounds <= MAX_ROUNDS && s.rounds % 2 == 0
    && DurationsAccepted(s)
    && 2 * s.rounds * (RequestCount(s.ratePerSecond, s.warmup) + RequestCount(s.ratePerSecond, s.measurement)) <= MAX_REQUESTS
    && 2 * s.rounds * (s.warmup + s.measurement + s.requestTimeout) <= MAX_RUN
  }

  /** -1 for an empty or overflowing product, as the source signals it. */
  function DerivedRequestCount(rate: Int64, duration: Int64): (count: Int64)
    ensures -1 <= count <= MAX_INT64 / SECOND
    ensures count >= 0 <==> rate > 0 && duration > 0 && rate * duration <= MAX_INT64
    ensures count >= 0 ==> count == RequestCount(rate, duration)
  {
    if rate <= 0 || duration <= 0 then -1
    else
      DivisionGuard(MAX_INT64, duration, rate);
      if rate > Quotient(MAX_INT64, duration) then -1 else duration * rate / SECOND
  }

  /** Sum of durations, or nothing when a partial sum leaves the 64-bit range. */
  method CheckedDurationSum(values: seq<Int64>) returns (total: Int64, ok: bool)
    ensures ok <==> forall k :: 0 <= k <= |values| ==> MIN_INT64 <= Sum(values[..k]) <= MAX_INT64
    ensures ok ==> total == Sum(values)
  {
    total := 0;
    for i := 0 to |values|
      invariant total == Sum(values[..i])
      invariant forall k :: 0 <= k <= i ==> MIN_INT64 <= Sum(values[..k]) <= MAX_INT64
    {
      var value := values[i];
      assert values[..i + 1][..i] == values[..i];
      assert Sum(values[..i + 1]) == total + value;
      if (value > 0 && total > MAX_INT64 - value) || (value < 0 && total < MIN_INT64 - value) {
        return 0, false;
      }
      total := total + value;
    }
    assert values[..|values|] == values;
    ok := true;
  }

  function Sum(values: seq<int>): int
  {
    if values == [] then 0 else Sum(values[..|values| - 1]) + values[|values| - 1]
  }

  lemma SumOfThree(a: int, b: int, c: int)
    ensures Sum([a, b, c]) == a + b + c
    ensures Sum([a, b, c][..0]) == 0 && Sum([a, b, c][..1]) == a && Sum([a, b, c][..2]) == a + b
    ensures Sum([a, b, c][..3]) == a + b + c
  {
    var s := [a, b, c];
    assert s[..0] == [] && s[..1] == [a] && s[..2] == [a, b] && s[..3] == s;
    assert [a][..0] == [] && [a, b][..1] == [a] && s[..2] == [a, b];
    assert Sum([a]) == a && Sum([a, b]) == a + b;
  }

  /** The weights that have been added up: those that are positive and do not overflow. */
  function Accumulated(operations: seq<Operation>): (total: Int64)
    ensures total >= 0
  {
    if operations == [] then 0
    else
      var before, weight := Accumulated(operations[..|operations| - 1]), operations[|operations| - 1].weight;
      if weight <= 0 || before > MAX_INT64 - weight then before else before + weight
  }

  predicate OperationBreaks(operations: seq<Operation>, i: nat, rule: Rule)
    requires i < |operations|
  {
    match rule
    case OperationId => !ValidIdentifier(operations[i].id)
    case UniqueOperation => exists j :: 0 <= j < i && operations[j].id == operations[i].id
    case OperationWeight => operations[i].weight <= 0
    case IntegerOverflow => operations[i].weight > 0 && Accumulated(operations[..i]) > MAX_INT64 - operations[i].weight
    case _ => false
  }

  predicate OperationsReported(operations: seq<Operation>, v: Violation)
  {
    match v.place
    case Operations => v.rule.OperationCount? && !(1 <= |operations| <= MAX_OPERATIONS)
    case OperationAt(i) => i < |operations| && OperationBreaks(operations, i, v.rule)
    case _ => false
  }

  method CheckOperation(operations: seq<Operation>, i: nat, seen: set<string>, totalWeight: Int64)
    returns (violations: seq<Violation>, newTotal: Int64)
    requires i < |operations| && totalWeight == Accumulated(operations[..i])
    requires forall id :: id in seen <==> exists j :: 0 <= j < i && operations[j].id == id
    ensures forall v :: v in violations <==> v.place == OperationAt(i) && OperationBreaks(operations, i, v.rule)
    ensures newTotal == Accumulated(operations[..i + 1])
  {
    var operation := operations[i];
    assert operations[..i + 1][..i] == operations[..i];
    violations, newTotal := [], totalWeight;
    if !ValidIdentifier(operation.id) {
      violations := violations + [Violation(OperationAt(i), OperationId)];
    }
    if operation.id in seen {
      violations := violations + [Violation(OperationAt(i), UniqueOperation)];
    }
    if operation.weight <= 0 {
      violations := violations + [Violation(OperationAt(i), OperationWeight)];
    } else if totalWeight > MAX_INT64 - operation.weight {
      violations := violations + [Violation(OperationAt(i), IntegerOverflow)];
    } else {
      newTotal := totalWeight + operation.weight;
    }
  }

  /** Of 1 to 64 lower-case letters, digits and hyphens, with no hyphen at either end. */
  predicate PatternHolds(id: string)
  {
    && id != "" && |id| < 65 && id[..1] != "-" && id[|id| - 1..] != "-"
    && forall c :: c in id ==> c == '-' || 'a' <= c <= 'z' || '0' <= c <= '9'
  }

  lemma IdentifierPattern(id: string)
    ensures ValidIdentifier(id) <==> PatternHolds(id)
  {
    assert forall i :: 0 <= i < |id| ==> id[i] in id;
  }

  lemma IdentifierReported(operations: seq<Operation>)
    ensures forall i :: 0 <= i < |operations| ==>
              (OperationsReported(operations, Violation(OperationAt(i), OperationId)) <==> !PatternHolds(operations[i].id))
  {
    hide PatternHolds, ValidIdentifier;
    forall i | 0 <= i < |operations|
      ensures ValidIdentifier(operations[i].id) <==> PatternHolds(operations[i].id)
    {
      IdentifierPattern(operations[i].id);
    }
  }

  method CheckOperations(operations: seq<Operation>) returns (violations: seq<Violation>)
    ensures forall v :: v in violations <==> OperationsReported(operations, v)
    ensures violations == [] <==> OperationsAccepted(operations)
    ensures forall i :: 0 <= i < |operations| ==>
              (Violation(OperationAt(i), OperationId) in violations <==> !PatternHolds(operations[i].id))
  {
    IdentifierReported(operations);
    hide PatternHolds;
    violations := [];
    if |operations| == 0 || |operations| > MAX_OPERATIONS {
      violations := violations + [Violation(Operations, OperationCount)];
    }
    var seen: set<string> := {};
    var totalWeight: Int64 := 0;
    hide OperationBreaks, Accumulated, OperationsAccepted;
    assert totalWeight == Accumulated(operations[..0]) by { NothingAccumulated(operations); }
    for i := 0 to |operations|
      invariant forall id :: id in seen <==> exists j :: 0 <= j < i && operations[j].id == id
      invariant totalWeight == Accumulated(operations[..i])
      invariant forall v :: v in violations <==>
                  OperationsReported(operations, v) && (v.place.OperationAt? ==> v.place.index < i)
    {
      var more;
      more, totalWeight := CheckOperation(operations, i, seen, totalWeight);
      violations := violations + more;
      seen := seen + {operations[i].id};
    }
    if violations != [] { assert violations[0] in violations; }
    NothingReportedMeansAccepted(operations);
  }

  lemma NothingAccumulated(operations: seq<Operation>)
    ensures Accumulated(operations[..0]) == 0
  {}

  /** The running 64-bit total overflows nowhere exactly when the exact total fits. */
  lemma {:induction false} OverflowExactly(operations: seq<Operation>)
    requires forall i :: 0 <= i < |operations| ==> operations[i].weight > 0
    ensures (forall i :: 0 <= i < |operations| ==> !OperationBreaks(operations, i, IntegerOverflow)) <==>
            TotalWeight(operations) <= MAX_INT64
    ensures TotalWeight(operations) <= MAX_INT64 ==> Accumulated(operations) == TotalWeight(operations)
    ensures TotalWeight(operations) >= 0
  {
    if operations != [] {
      var last := |operations| - 1;
      var init := operations[..last];
      OverflowExactly(init);
      assert forall i :: 0 <= i < last ==> operations[..i] == init[..i];
      assert forall i :: 0 <= i < last ==>
          OperationBreaks(operations, i, IntegerOverflow) == OperationBreaks(init, i, IntegerOverflow);
      assert (forall i :: 0 <= i < |operations| ==> !OperationBreaks(operations, i, IntegerOverflow)) <==>
             && (forall i :: 0 <= i < last ==> !OperationBreaks(init, i, IntegerOverflow))
             && !OperationBreaks(operations, last, IntegerOverflow);
    }
  }

  /** The rules by themselves report nothing exactly for the operations that meet the bounds in exact arithmetic. */
  lemma NothingReportedMeansAccepted(operations: seq<Operation>)
    ensures (forall v :: !OperationsReported(operations, v)) <==> OperationsAccepted(operations)
  {
    if forall v :: !OperationsReported(operations, v) {
      assert !OperationsReported(operations, Violation(Operations, OperationCount));
      forall i, rule | 0 <= i < |operations|
        ensures !OperationBreaks(operations, i, rule)
      {
        assert !OperationsReported(operations, Violation(OperationAt(i), rule));
      }
      forall i | 0 <= i < |operations|
        ensures ValidIdentifier(operations[i].id) && operations[i].weight > 0
      {
        assert !OperationBreaks(operations, i, OperationId) && !OperationBreaks(operations, i, OperationWeight);
      }
      forall i, j | 0 <= i < j < |operations|
        ensures operations[i].id != operations[j].id
      {
        assert !OperationBreaks(operations, j, UniqueOperation);
      }
      OverflowExactly(operations);
    } else if OperationsAccepted(operations) {
      OverflowExactly(operations);
    }
  }

  method CheckDuration(place: Place, value: Int64, minimum: Int64, maximum: Int64) returns (violations: seq<Violation>)
    ensures violations == if minimum <= value <= maximum then [] else [Violation(place, DurationBound)]
  {
    violations := if value < minimum || value > maximum then [Violation(place, DurationBound)] else [];
  }

  function Double(x: Int64): Int64 { Wrap(2 * x) }

  /** 2 * rounds * amount compared with a limit, as the source does it: every product may wrap, and the
      guard divides by a product that may have wrapped. */
  predicate WithinLimit(rounds: Int64, amount: Int64, divisor: Int64, limit: Int64)
    requires divisor > 0
  {
    DoubledIsNonzero(divisor);
    !(rounds > Quotient(MAX_INT64, Double(divisor))) && !(Wrap(Double(rounds) * amount) > limit)
  }

  /** The guard never divides by zero. */
  lemma DoubledIsNonzero(x: Int64)
    requires x > 0
    ensures Double(x) != 0
    ensures x <= MAX_INT64 / 2 ==> Double(x) == 2 * x
    ensures x > MAX_INT64 / 2 ==> Double(x) < 0
  {}

  /** The guarded 64-bit comparison decides the exact one. */
  lemma WithinLimitIsExact(rounds: Int64, amount: Int64, limit: Int64)
    requires rounds > 0 && amount > 0 && 0 <= limit <= MAX_RUN
    ensures WithinLimit(rounds, amount, amount, limit) <==> 2 * rounds * amount <= limit
  {
    DoubledIsNonzero(amount);
    var product := rounds * (2 * amount);
    assert 2 * rounds * amount == product;
    if Double(amount) < 0 {
      MulAtLeast(2 * amount, rounds);
    } else {
      DivisionGuard(MAX_INT64, 2 * amount, rounds);
      if product <= MAX_INT64 {
        MulAtLeast(2 * rounds, amount);
        assert Double(rounds) * amount == product;
      }
    }
  }

  /** Whether 2 * rounds * perTrial requests stay within the inventory. */
  method InventoryFits(rounds: Int64, perTrial: Int64) returns (ok: bool)
    requires 0 < rounds
    ensures ok <==> perTrial >= 0 && 2 * rounds * perTrial <= MAX_REQUESTS && rounds <= MAX_INT64 / 2
  {
    var divisor := if perTrial > 1 then perTrial else 1;
    if perTrial > 0 {
      WithinLimitIsExact(rounds, perTrial, MAX_REQUESTS);
      MulAtLeast(perTrial, 2 * rounds);
    } else {
      DoubledIsNonzero(1);
    }
    ok := !(perTrial < 0 || perTrial > MAX_REQUESTS || !WithinLimit(rounds, perTrial, divisor, MAX_REQUESTS));
  }

  /** Whether 2 * rounds trials of the summed duration stay within two hours. */
  method RunFits(rounds: Int64, warmup: Int64, measurement: Int64, timeout: Int64) returns (ok: bool)
    requires 0 < rounds
    ensures ok <==> RunAccepted(rounds, warmup, measurement, timeout)
  {
    var perTrial, sumOk := CheckedDurationSum([warmup, measurement, timeout]);
    SumOfThree(warmup, measurement, timeout);
    ghost var exact := warmup + measurement + timeout;
    if sumOk && perTrial > 0 {
      WithinLimitIsExact(rounds, perTrial, MAX_RUN);
    }
    ok := !(!sumOk || perTrial <= 0 || !WithinLimit(rounds, perTrial, perTrial, MAX_RUN));
    if exact > 0 { MulAtLeast(exact, 2 * rounds); }
    if !sumOk {
      ghost var k :| 0 <= k <= 3 && !(MIN_INT64 <= Sum([warmup, measurement, timeout][..k]) <= MAX_INT64);
      assert k == 2 || k == 3;
    } else {
      assert MIN_INT64 <= Sum([warmup, measurement, timeout][..2]) <= MAX_INT64;
    }
  }

  /** In exact arithmetic, but for a first partial sum that leaves the 64-bit range. */
  predicate RunAccepted(rounds: int, warmup: int, measurement: int, timeout: int)
  {
    var perTrial := warmup + measurement + timeout;
    MIN_INT64 <= warmup + measurement <= MAX_INT64 && perTrial > 0 && 2 * rounds * perTrial <= MAX_RUN
  }

  predicate InventoryAccepted(s: Schedule)
  {
    var perTrial := DerivedRequestCount(s.ratePerSecond, s.warmup) + DerivedRequestCount(s.ratePerSecond, s.measurement);
    perTrial >= 0 && 2 * s.rounds * perTrial <= MAX_REQUESTS && s.rounds <= MAX_INT64 / 2
  }

  predicate BoundReported(s: Schedule, v: Violation)
  {
    match v.place
    case Rate => v.rule.RateBound? && !(1 <= s.ratePerSecond <= MAX_RATE)
    case Rounds => v.rule.RoundBound? && !(4 <= s.rounds <= MAX_ROUNDS && s.rounds % 2 == 0)
    case Warmup => v.rule.DurationBound? && !(100 * MILLISECOND <= s.warmup <= 60 * SECOND)
    case Measurement => v.rule.DurationBound? && !(SECOND <= s.measurement <= 300 * SECOND)
    case RequestTimeout => v.rule.DurationBound? && !(MILLISECOND <= s.requestTimeout <= 30 * SECOND)
    case _ => false
  }

  /** The derived bounds are looked at only for a positive rate and a positive number of rounds. */
  predicate DerivedReported(s: Schedule, v: Violation)
  {
    v.place.WholeSchedule? && s.ratePerSecond > 0 && s.rounds > 0 &&
    match v.rule
    case RequestInventory => !InventoryAccepted(s)
    case RunBound => !RunAccepted(s.rounds, s.warmup, s.measurement, s.requestTimeout)
    case _ => false
  }

  predicate ScheduleReported(s: Schedule, v: Violation) { BoundReported(s, v) || DerivedReported(s, v) }

  method CheckBounds(s: Schedule) returns (violations: seq<Violation>)
    ensures forall v :: v in violations <==> BoundReported(s, v)
  {
    violations := [];
    if s.ratePerSecond < 1 || s.ratePerSecond > MAX_RATE {
      violations := violations + [Violation(Rate, RateBound)];
    }
    if s.rounds < 4 || s.rounds > MAX_ROUNDS || s.rounds % 2 != 0 {
      violations := violations + [Violation(Rounds, RoundBound)];
    }
    var warmup := CheckDuration(Warmup, s.warmup, 100 * MILLISECOND, 60 * SECOND);
    var measurement := CheckDuration(Measurement, s.measurement, SECOND, 300 * SECOND);
    var timeout := CheckDuration(RequestTimeout, s.requestTimeout, MILLISECOND, 30 * SECOND);
    violations := violations + warmup + measurement + timeout;
  }

  method CheckDerivedBounds(s: Schedule) returns (violations: seq<Violation>)
    ensures forall v :: v in violations <==> DerivedReported(s, v)
  {
    hide RunAccepted, InventoryAccepted;
    violations := [];
    if s.ratePerSecond > 0 && s.rounds > 0 {
      var inventory := CheckInventory(s);
      if !inventory {
        violations := violations + [Violation(WholeSchedule, RequestInventory)];
      }
      var run := RunFits(s.rounds, s.warmup, s.measurement, s.requestTimeout);
      if !run {
        violations := violations + [Violation(WholeSchedule, RunBound)];
      }
    }
  }

  method CheckInventory(s: Schedule) returns (ok: bool)
    requires s.rounds > 0
    ensures ok <==> InventoryAccepted(s)
  {
    var perTrial := DerivedRequestCount(s.ratePerSecond, s.warmup) + DerivedRequestCount(s.ratePerSecond, s.measurement);
    ok := InventoryFits(s.rounds, perTrial);
  }

  /** The rules by themselves report nothing exactly for the schedules that meet the bounds in exact arithmetic. */
  lemma NothingReportedMeansScheduled(s: Schedule)
    ensures (forall v :: !ScheduleReported(s, v)) <==> ScheduleAccepted(s)
  {
    if forall v :: !ScheduleReported(s, v) {
      assert !ScheduleReported(s, Violation(Rate, RateBound)) && !ScheduleReported(s, Violation(Rounds, RoundBound));
      assert !ScheduleReported(s, Violation(Warmup, DurationBound));
      assert !ScheduleReported(s, Violation(Measurement, DurationBound));
      assert !ScheduleReported(s, Violation(RequestTimeout, DurationBound));
      assert !ScheduleReported(s, Violation(WholeSchedule, RequestInventory));
      assert !ScheduleReported(s, Violation(WholeSchedule, RunBound));
      CountsFit(s);
    } else if ScheduleAccepted(s) {
      CountsFit(s);
    }
  }

  /** Within the rate and duration bounds the request counts are exact. */
  lemma CountsFit(s: Schedule)
    requires 1 <= s.ratePerSecond <= MAX_RATE && DurationsAccepted(s)
    ensures DerivedRequestCount(s.ratePerSecond, s.warmup) == RequestCount(s.ratePerSecond, s.warmup)
    ensures DerivedRequestCount(s.ratePerSecond, s.measurement) == RequestCount(s.ratePerSecond, s.measurement)
  {
    RateProductFits(s.ratePerSecond, s.warmup);
    RateProductFits(s.ratePerSecond, s.measurement);
  }

  /** Every violation with its place, and none exactly for a workload that meets the bounds in exact arithmetic. */
  method ValidateWorkload(operations: seq<Operation>, s: Schedule) returns (violations: seq<Violation>)
    ensures forall v :: v in violations <==> OperationsReported(operations, v) || ScheduleReported(s, v)
    ensures violations == [] <==> OperationsAccepted(operations) && ScheduleAccepted(s)
  {
    hide OperationsReported, OperationsAccepted, ScheduleAccepted, BoundReported, DerivedReported;
    violations := CheckOperations(operations);
    var bounds := CheckBounds(s);
    violations := violations + bounds;
    var derived := CheckDerivedBounds(s);
    violations := violations + derived;
    if violations != [] { assert violations[0] in violations; }
    NothingReportedMeansAccepted(operations);
    NothingReportedMeansScheduled(s);
  }

  lemma RateProductFits(rate: int, duration: int)
    requires 0 < rate <= MAX_RATE && 0 < duration <= 300 * SECOND
    ensures 0 < rate * duration <= MAX_RATE * 300 * SECOND
  {
    MulMonotone(rate, MAX_RATE, duration);
    MulMonotone(1, rate, duration);
  }
}
