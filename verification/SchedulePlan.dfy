/** The seeded benchmark plan: a shuffled assignment of which target runs first in each round, and the
    weighted open-loop arrival schedule of every phase. */
module SchedulePlan {
  import opened SplitMix
  import opened Sampling
  import opened Workload
  import opened Arithmetic
  import opened Cardinality

  datatype Target = Baseline | Candidate

  datatype Request = Request(ordinal: nat, offsetNanos: Int64, operationId: string)

  datatype Round = Round(index: nat, first: Target, warmup: seq<Request>, measurement: seq<Request>)

  /* ---------- the shuffle ---------- */

  function Swap<T>(s: seq<T>, i: nat, j: nat): (t: seq<T>)
    requires i < |s| && j < |s|
    ensures |t| == |s|
  {
    s[i := s[j]][j := s[i]]
  }

  lemma SwapIsPermutation<T>(s: seq<T>, i: nat, j: nat)
    requires i < |s| && j < |s|
    ensures multiset(Swap(s, i, j)) == multiset(s)
  {
    assert multiset(s[i := s[j]]) == multiset(s) - multiset{s[i]} + multiset{s[j]};
  }

  /** The order left by the downward shuffle of positions 0..last from this generator state. */
  ghost function ShuffledFrom<T>(s: seq<T>, last: nat, state: Word): (t: seq<T>)
    requires last < |s| < TWO64
    ensures |t| == |s|
    decreases last
  {
    if last == 0 then s
    else ShuffledFrom(Swap(s, last, BoundedValue(state, last + 1)), last - 1, BoundedState(state, last + 1))
  }

  lemma {:induction false} ShuffleIsPermutation<T>(s: seq<T>, last: nat, state: Word)
    requires last < |s| < TWO64
    ensures multiset(ShuffledFrom(s, last, state)) == multiset(s)
    decreases last
  {
    if last != 0 {
      var selected := BoundedValue(state, last + 1);
      SwapIsPermutation(s, last, selected);
      ShuffleIsPermutation(Swap(s, last, selected), last - 1, BoundedState(state, last + 1));
    }
  }

  /* ---------- every order is reached by one list of selections ---------- */

  /** The selections at positions `last` down to 1: a position selects itself or one before it. */
  ghost predicate Selections(choices: seq<nat>, last: nat)
  {
    |choices| == last + 1 && forall i :: 0 < i <= last ==> choices[i] <= i
  }

  /** What the shuffle makes of the elements when it selects these positions. */
  ghost function ShuffledBy<T>(s: seq<T>, last: nat, choices: seq<nat>): (t: seq<T>)
    requires last < |s| && Selections(choices, last)
    ensures |t| == |s|
    decreases last
  {
    if last == 0 then s else ShuffledBy(Swap(s, last, choices[last]), last - 1, choices[..last])
  }

  /** The selections that the generator makes. */
  ghost function Drawn(last: nat, state: Word): (choices: seq<nat>)
    requires last < TWO64 - 1
    ensures Selections(choices, last)
    decreases last
  {
    if last == 0 then [0] else Drawn(last - 1, BoundedState(state, last + 1)) + [BoundedValue(state, last + 1)]
  }

  /** The shuffle of a generator is that of its bounded draws. */
  lemma {:induction false} ShuffledByDraws<T>(s: seq<T>, last: nat, state: Word)
    requires last < |s| < TWO64
    ensures ShuffledFrom(s, last, state) == ShuffledBy(s, last, Drawn(last, state))
    decreases last
  {
    hide BoundedValue, BoundedState;
    if last > 0 {
      var choices := Drawn(last, state);
      assert choices[..last] == Drawn(last - 1, BoundedState(state, last + 1));
      ShuffledByDraws(Swap(s, last, choices[last]), last - 1, BoundedState(state, last + 1));
    }
  }

  /** Positions after the last one stay. */
  lemma {:induction false} AfterLastStays<T>(s: seq<T>, last: nat, choices: seq<nat>, k: nat)
    requires last < k < |s| && Selections(choices, last)
    ensures ShuffledBy(s, last, choices)[k] == s[k]
    decreases last
  {
    if last > 0 { AfterLastStays(Swap(s, last, choices[last]), last - 1, choices[..last], k); }
  }

  lemma SelectedIsLast<T>(s: seq<T>, last: nat, choices: seq<nat>)
    requires 0 < last < |s| && Selections(choices, last)
    ensures ShuffledBy(s, last, choices)[last] == s[choices[last]]
  {
    AfterLastStays(Swap(s, last, choices[last]), last - 1, choices[..last], last);
  }

  lemma SwapKeepsDistinct<T>(s: seq<T>, i: nat, j: nat)
    requires Distinct(s) && i < |s| && j < |s|
    ensures Distinct(Swap(s, i, j))
  {}

  /** Of different elements, two different lists of selections give different orders. */
  lemma {:induction false} SelectionsAreTold<T>(s: seq<T>, last: nat, a: seq<nat>, b: seq<nat>)
    requires Distinct(s) && last < |s| && Selections(a, last) && Selections(b, last) && a[0] == b[0]
    requires ShuffledBy(s, last, a) == ShuffledBy(s, last, b)
    ensures a == b
    decreases last
  {
    if last > 0 {
      SelectedIsLast(s, last, a);
      SelectedIsLast(s, last, b);
      SwapKeepsDistinct(s, last, a[last]);
      SelectionsAreTold(Swap(s, last, a[last]), last - 1, a[..last], b[..last]);
      assert a == a[..last] + [a[last]] && b == b[..last] + [b[last]];
    }
  }

  /** And every order of the elements comes from some list. */
  lemma {:induction false} EveryOrderIsReached<T>(s: seq<T>, last: nat, t: seq<T>) returns (choices: seq<nat>)
    requires last < |s| == |t| && multiset(s) == multiset(t) && forall k :: last < k < |s| ==> s[k] == t[k]
    ensures Selections(choices, last) && choices[0] == 0 && ShuffledBy(s, last, choices) == t
    decreases last
  {
    if last == 0 {
      choices := [0];
      OneElementLeft(s, t);
    } else {
      var j := PositionOf(s, last, t);
      SwapIsPermutation(s, last, j);
      var before := EveryOrderIsReached(Swap(s, last, j), last - 1, t);
      choices := before + [j];
      assert choices[..last] == before;
    }
  }

  lemma OneElementLeft<T>(s: seq<T>, t: seq<T>)
    requires 0 < |s| == |t| && multiset(s) == multiset(t) && forall k :: 0 < k < |s| ==> s[k] == t[k]
    ensures s == t
  {
    assert s == [s[0]] + s[1..] && t == [t[0]] + t[1..] && s[1..] == t[1..];
    assert multiset([s[0]]) == multiset(s) - multiset(s[1..]) == multiset([t[0]]);
    assert s[0] in multiset([t[0]]);
  }

  lemma PositionOf<T>(s: seq<T>, last: nat, t: seq<T>) returns (j: nat)
    requires last < |s| == |t| && multiset(s) == multiset(t) && forall k :: last < k < |s| ==> s[k] == t[k]
    ensures j <= last && s[j] == t[last]
  {
    var n := last + 1;
    assert s == s[..n] + s[n..] && t == t[..n] + t[n..] && s[n..] == t[n..];
    assert multiset(s[..n]) == multiset(s) - multiset(s[n..]) == multiset(t[..n]);
    assert t[..n][last] in multiset(s[..n]);
    j :| 0 <= j < n && s[..n][j] == t[last];
  }

  method SwapInPlace<T>(orders: array<T>, i: nat, j: nat)
    requires i < orders.Length && j < orders.Length
    modifies orders
    ensures orders[..] == Swap(old(orders[..]), i, j)
  {
    orders[i], orders[j] := orders[j], orders[i];
  }

  method Shuffle<T>(orders: array<T>, random: Generator)
    requires 0 < orders.Length < TWO64
    modifies orders, random
    ensures orders[..] == ShuffledFrom(old(orders[..]), orders.Length - 1, old(random.state))
  {
    hide BoundedValue, BoundedState;
    var index := orders.Length - 1;
    while index > 0
      invariant 0 <= index < orders.Length
      invariant ShuffledFrom(orders[..], index, random.state)
             == ShuffledFrom(old(orders[..]), orders.Length - 1, old(random.state))
    {
      var selected := random.Bounded(index + 1);
      SwapInPlace(orders, index, selected);
      index := index - 1;
    }
  }

  /** The unshuffled assignment: the baseline first in the first half of the rounds. */
  function InitialOrder(rounds: nat): (s: seq<Target>)
    ensures |s| == rounds
  {
    seq(rounds, i => if i < rounds / 2 then Baseline else Candidate)
  }

  lemma {:induction false} CountOfConstant<T>(s: seq<T>, x: T, y: T, from: nat)
    requires x != y && from <= |s|
    requires forall i :: 0 <= i < |s| ==> s[i] == if i < from then x else y
    ensures multiset(s)[x] == from && multiset(s)[y] == |s| - from
  {
    if s != [] {
      var init, last := s[..|s| - 1], s[|s| - 1];
      assert s == init + [last];
      CountOfConstant(init, x, y, if from == |s| then from - 1 else from);
    }
  }

  /** For every seed each target is first in exactly half of an even number of rounds. */
  lemma ShuffleIsBalanced(rounds: nat, seed: Word)
    requires rounds % 2 == 0 && 0 < rounds < TWO64
    ensures var order := ShuffledFrom(InitialOrder(rounds), rounds - 1, seed);
            multiset(order)[Baseline] == multiset(order)[Candidate] == rounds / 2
    ensures forall i :: 0 <= i < rounds ==> (InitialOrder(rounds)[i] == Baseline <==> 2 * i < rounds)
  {
    ShuffleIsPermutation(InitialOrder(rounds), rounds - 1, seed);
    CountOfConstant(InitialOrder(rounds), Baseline, Candidate, rounds / 2);
  }

  /* ---------- weighted selection ---------- */

  /** The operation whose cumulative-weight interval holds the draw. */
  ghost predicate Selects(operations: seq<Operation>, draw: nat, i: nat)
  {
    && i < |operations|
    && TotalWeight(operations[..i]) <= draw < TotalWeight(operations[..i + 1])
  }

  ghost predicate Positive(operations: seq<Operation>)
  {
    forall i :: 0 <= i < |operations| ==> operations[i].weight > 0
  }

  lemma PrefixStep(operations: seq<Operation>, i: nat)
    requires i < |operations|
    ensures TotalWeight(operations[..i + 1]) == TotalWeight(operations[..i]) + operations[i].weight
  {
    assert operations[..i + 1][..i] == operations[..i];
  }

  lemma {:induction false} PrefixMonotone(operations: seq<Operation>, i: nat, j: nat)
    requires Positive(operations) && i <= j <= |operations|
    ensures TotalWeight(operations[..i]) + (j - i) <= TotalWeight(operations[..j])
    decreases j - i
  {
    if i < j {
      PrefixMonotone(operations, i, j - 1);
      PrefixStep(operations, j - 1);
    }
  }

  lemma SelectionIsUnique(operations: seq<Operation>, draw: nat, i: nat, j: nat)
    requires Positive(operations)
    requires Selects(operations, draw, i) && Selects(operations, draw, j)
    ensures i == j
  {
    if i < j {
      PrefixMonotone(operations, i + 1, j);
    } else if j < i {
      PrefixMonotone(operations, j + 1, i);
    }
  }

  /** The draws that select one operation. */
  ghost function DrawsFor(operations: seq<Operation>, total: nat, i: nat): set<nat>
  {
    set draw: nat | draw < total && Selects(operations, draw, i)
  }

  /** Out of all draws below the total weight, exactly weight-many select each operation. */
  lemma SelectionIsProportional(operations: seq<Operation>, i: nat)
    requires Positive(operations) && i < |operations|
    ensures TotalWeight(operations) > 0
    ensures |DrawsFor(operations, TotalWeight(operations), i)| == operations[i].weight
  {
    var low := TotalWeight(operations[..i]);
    var weight := operations[i].weight;
    PrefixStep(operations, i);
    PrefixMonotone(operations, 0, i);
    PrefixMonotone(operations, i + 1, |operations|);
    assert operations[..|operations|] == operations && operations[..0] == [];
    assert DrawsFor(operations, TotalWeight(operations), i) == Interval(low, weight);
  }

  method Select(operations: seq<Operation>, draw: nat) returns (selected: Operation)
    requires Positive(operations) && draw < TotalWeight(operations) <= MAX_INT64
    ensures exists i: nat :: Selects(operations, draw, i) && selected == operations[i]
  {
    assert operations[..|operations|] == operations;
    selected := operations[|operations| - 1];
    var cursor: Int64 := 0;
    for i := 0 to |operations|
      invariant cursor == TotalWeight(operations[..i]) <= draw
    {
      PrefixStep(operations, i);
      PrefixMonotone(operations, i + 1, |operations|);
      cursor := cursor + operations[i].weight;
      if draw < cursor {
        assert Selects(operations, draw, i);
        return operations[i];
      }
    }
    // The fallback to the last operation is unreachable: the draw is below the total weight.
    assert false;
  }

  /* ---------- arrival offsets ---------- */

  function Offset(rate: int, ordinal: int): int
    requires rate > 0
  {
    ordinal * SECOND / rate
  }

  lemma OffsetsIncrease(rate: int, j: nat, k: nat)
    requires 0 < rate <= SECOND && j < k
    ensures Offset(rate, j) < Offset(rate, k)
  {
    var a, b := Offset(rate, j), Offset(rate, k);
    assert j * SECOND == rate * a + j * SECOND % rate;
    assert k * SECOND == rate * b + k * SECOND % rate;
    if b <= a {
      if b < a { MulOrder(rate, b, a); }
      assert false;
    }
  }

  lemma OffsetsAreWithinPhase(rate: int, duration: nat, ordinal: nat)
    requires rate > 0 && ordinal < RequestCount(rate, duration)
    ensures 0 <= Offset(rate, ordinal) < duration
  {
    var offset := Offset(rate, ordinal);
    QuotientBounds(ordinal * SECOND, rate);
    assert ordinal * SECOND == rate * offset + ordinal * SECOND % rate;
    assert rate * duration == SECOND * RequestCount(rate, duration) + rate * duration % SECOND;
    if duration <= offset {
      if duration < offset { MulOrder(rate, duration, offset); }
      assert false;
    }
  }

  /** The arrival pattern repeats every second. */
  lemma OffsetsRepeat(rate: int, ordinal: nat)
    requires rate > 0
    ensures Offset(rate, ordinal + rate) == Offset(rate, ordinal) + SECOND
  {
    var offset := Offset(rate, ordinal);
    assert (ordinal + rate) * SECOND == rate * (offset + SECOND) + ordinal * SECOND % rate by {
      assert ordinal * SECOND == rate * offset + ordinal * SECOND % rate;
      assert (ordinal + rate) * SECOND == ordinal * SECOND + rate * SECOND;
      assert rate * (offset + SECOND) == rate * offset + rate * SECOND;
    }
    DivModUnique((ordinal + rate) * SECOND, rate, offset + SECOND, ordinal * SECOND % rate);
  }

  /* ---------- one phase ---------- */

  /** Generator state before the n-th bounded draw. */
  ghost function StateBeforeDraw(seed: Word, bound: Word, n: nat): Word
    requires bound > 0
  {
    if n == 0 then seed else BoundedState(StateBeforeDraw(seed, bound, n - 1), bound)
  }

  ghost function BoundedDraw(seed: Word, bound: Word, n: nat): (draw: nat)
    requires bound > 0
    ensures draw < bound
  {
    BoundedValue(StateBeforeDraw(seed, bound, n), bound)
  }

  ghost predicate IsSelected(operations: seq<Operation>, draw: nat, id: string)
  {
    exists i: nat :: Selects(operations, draw, i) && operations[i].id == id
  }

  ghost predicate RequestAt(operations: seq<Operation>, rate: Int64, draw: nat, ordinal: nat, request: Request)
    requires rate > 0
  {
    && request.ordinal == ordinal
    && request.offsetNanos == Offset(rate, ordinal)
    && IsSelected(operations, draw, request.operationId)
  }

  /** What one phase issues, in order, when the generator starts in this state. */
  ghost predicate PhaseOf(operations: seq<Operation>, total: Word, rate: Int64, duration: Int64, seed: Word, requests: seq<Request>)
    requires rate > 0 && total > 0
  {
    && |requests| == RequestCount(rate, duration)
    && forall k :: 0 <= k < |requests| ==>
         RequestAt(operations, rate, BoundedDraw(seed, total, k), k, requests[k])
  }

  lemma PhaseMeans(operations: seq<Operation>, total: Word, rate: Int64, duration: Int64, seed: Word, requests: seq<Request>)
    requires rate > 0 && total > 0 && PhaseOf(operations, total, rate, duration, seed, requests)
    ensures |requests| == rate * duration / 1_000_000_000
    ensures forall k :: 0 <= k < |requests| ==>
              && requests[k].ordinal == k && requests[k].offsetNanos == k * 1_000_000_000 / rate
              && Issues(operations, BoundedDraw(seed, total, k), requests[k].operationId)
  {
    hide BoundedDraw;
    forall k | 0 <= k < |requests|
      ensures Issues(operations, BoundedDraw(seed, total, k), requests[k].operationId)
    {
      assert IsSelected(operations, BoundedDraw(seed, total, k), requests[k].operationId);
      var i: nat :| Selects(operations, BoundedDraw(seed, total, k), i) && operations[i].id == requests[k].operationId;
      PrefixStep(operations, i);
    }
  }

  /** The operation's share of the draws begins where the weights before it end. */
  ghost predicate Issues(operations: seq<Operation>, draw: nat, id: string)
  {
    exists i: nat ::
      && i < |operations| && operations[i].id == id
      && TotalWeight(operations[..i]) <= draw < TotalWeight(operations[..i]) + operations[i].weight
  }

  /** A round makes one sequence of draws: the warmup takes the first of them and the measurement goes on. */
  lemma RoundDraws(operations: seq<Operation>, total: Word, s: Schedule, seed: Word, round: Round)
    requires s.ratePerSecond > 0 && total > 0 && RoundOf(operations, total, s, seed, round)
    ensures forall k :: 0 <= k < |round.warmup| ==>
              Issues(operations, BoundedDraw(seed, total, k), round.warmup[k].operationId)
    ensures forall k :: 0 <= k < |round.measurement| ==>
              Issues(operations, BoundedDraw(seed, total, |round.warmup| + k), round.measurement[k].operationId)
  {
    var w := |round.warmup|;
    PhaseMeans(operations, total, s.ratePerSecond, s.warmup, seed, round.warmup);
    PhaseMeans(operations, total, s.ratePerSecond, s.measurement, StateBeforeDraw(seed, total, w), round.measurement);
    hide BoundedValue, BoundedState, Issues;
    forall k | 0 <= k < |round.measurement|
      ensures BoundedDraw(StateBeforeDraw(seed, total, w), total, k) == BoundedDraw(seed, total, w + k)
    {
      DrawsGoOn(seed, total, w, k);
    }
  }

  lemma {:induction false} DrawsGoOn(seed: Word, bound: Word, m: nat, n: nat)
    requires bound > 0
    ensures StateBeforeDraw(StateBeforeDraw(seed, bound, m), bound, n) == StateBeforeDraw(seed, bound, m + n)
  {
    hide BoundedState;
    if n > 0 {
      DrawsGoOn(seed, bound, m, n - 1);
      assert m + n - 1 == m + (n - 1);
    }
  }

  method BuildRequest(rate: Int64, ordinal: nat, operations: seq<Operation>, total: Word, random: Generator)
    returns (request: Request)
    requires 0 < rate <= MAX_RATE && Positive(operations)
    requires 0 < total == TotalWeight(operations) <= MAX_INT64
    requires ordinal <= MAX_INT64 / SECOND
    modifies random
    ensures random.state == BoundedState(old(random.state), total)
    ensures RequestAt(operations, rate, BoundedValue(old(random.state), total), ordinal, request)
  {
    var scaled: Int64 := ordinal * SECOND;
    QuotientBounds(scaled, rate);
    var offset: Int64 := scaled / rate;
    var selection := random.Bounded(total);
    var operation := Select(operations, selection);
    assert IsSelected(operations, selection, operation.id);
    request := Request(ordinal, offset, operation.id);
  }

  method BuildRequests(rate: Int64, duration: Int64, operations: seq<Operation>, total: Word, random: Generator)
    returns (requests: array<Request>)
    requires 0 < rate <= MAX_RATE && 0 < duration <= 300 * SECOND
    requires Positive(operations) && 0 < total == TotalWeight(operations) <= MAX_INT64
    modifies random
    ensures fresh(requests)
    ensures PhaseOf(operations, total, rate, duration, old(random.state), requests[..])
    ensures random.state == StateBeforeDraw(old(random.state), total, RequestCount(rate, duration))
  {
    hide RequestAt, BoundedState, BoundedValue;
    RateProductFits(rate, duration);
    var product: Int64 := duration * rate;
    var count := product / SECOND;
    ghost var seed := random.state;
    requests := new Request[count](_ => Request(0, 0, ""));
    for ordinal := 0 to count
      invariant random.state == StateBeforeDraw(seed, total, ordinal)
      invariant forall k :: 0 <= k < ordinal ==>
        RequestAt(operations, rate, BoundedDraw(seed, total, k), k, requests[k])
    {
      var request := BuildRequest(rate, ordinal, operations, total, random);
      requests[ordinal] := request;
    }
  }

  method WeightSum(operations: seq<Operation>) returns (total: Word)
    requires OperationsAccepted(operations)
    ensures total == TotalWeight(operations)
    ensures 0 < total <= MAX_INT64
  {
    total := 0;
    assert operations[..|operations|] == operations;
    for i := 0 to |operations|
      invariant total == TotalWeight(operations[..i])
    {
      PrefixStep(operations, i);
      PrefixMonotone(operations, i + 1, |operations|);
      total := total + operations[i].weight;
    }
    PrefixMonotone(operations, 0, |operations|);
  }

  /* ---------- the whole plan ---------- */

  /** The seed of each round's own generator. */
  function RoundSeed(requestSeed: Word, round: nat): Word { Draw(requestSeed, round) }

  /** One round of the plan: both phases draw from the round's generator, the second continuing where
      the first stopped. */
  ghost predicate RoundOf(operations: seq<Operation>, total: Word, s: Schedule, seed: Word, round: Round)
    requires s.ratePerSecond > 0 && total > 0
  {
    && PhaseOf(operations, total, s.ratePerSecond, s.warmup, seed, round.warmup)
    && PhaseOf(operations, total, s.ratePerSecond, s.measurement,
               StateBeforeDraw(seed, total, |round.warmup|), round.measurement)
  }

  method BuildRound(operations: seq<Operation>, total: Word, s: Schedule, index: nat, first: Target, seed: Word)
    returns (round: Round)
    requires ScheduleAccepted(s) && Positive(operations)
    requires 0 < total == TotalWeight(operations) <= MAX_INT64
    ensures round.index == index && round.first == first
    ensures RoundOf(operations, total, s, seed, round)
  {
    var random := new Generator(seed);
    var warmup := BuildRequests(s.ratePerSecond, s.warmup, operations, total, random);
    var warmed := warmup[..];
    var measurement := BuildRequests(s.ratePerSecond, s.measurement, operations, total, random);
    round := Round(index, first, warmed, measurement[..]);
  }

  ghost predicate RoundsOf(operations: seq<Operation>, total: Word, s: Schedule, requestSeed: Word,
                           firsts: seq<Target>, rounds: seq<Round>)
    requires s.ratePerSecond > 0 && total > 0 && |rounds| <= |firsts|
  {
    forall k :: 0 <= k < |rounds| ==>
      && rounds[k].index == k
      && rounds[k].first == firsts[k]
      && RoundOf(operations, total, s, RoundSeed(requestSeed, k), rounds[k])
  }

  method BuildRounds(operations: seq<Operation>, total: Word, s: Schedule, firsts: seq<Target>, requestSeed: Word)
    returns (rounds: seq<Round>)
    requires ScheduleAccepted(s) && Positive(operations) && |firsts| == s.rounds
    requires 0 < total == TotalWeight(operations) <= MAX_INT64
    ensures |rounds| == s.rounds && RoundsOf(operations, total, s, requestSeed, firsts, rounds)
    ensures 2 * TotalRequests(rounds) <= MAX_REQUESTS
  {
    hide RequestAt, StateBeforeDraw, BoundedDraw;
    rounds := [];
    var requestRandom := new Generator(requestSeed);
    for index := 0 to s.rounds
      invariant requestRandom.state == StateAfter(requestSeed, index)
      invariant |rounds| == index && RoundsOf(operations, total, s, requestSeed, firsts, rounds)
    {
      var seed := requestRandom.Next();
      DrawFromState(requestSeed, index);
      var round := BuildRound(operations, total, s, index, firsts[index], seed);
      rounds := rounds + [round];
    }
    PlanStaysWithinInventory(s, rounds);
  }

  method BuildPlan(operations: seq<Operation>, s: Schedule, orderSeed: Word, requestSeed: Word)
    returns (rounds: seq<Round>, violations: seq<Violation>)
    ensures violations == [] <==> OperationsAccepted(operations) && ScheduleAccepted(s)
    ensures violations != [] ==> rounds == []
    ensures violations == [] ==>
      && |rounds| == s.rounds
      && 0 < TotalWeight(operations) < TWO64
      && RoundsOf(operations, TotalWeight(operations), s, requestSeed,
                  ShuffledFrom(InitialOrder(s.rounds), s.rounds - 1, orderSeed), rounds)
      && 2 * TotalRequests(rounds) <= MAX_REQUESTS
    ensures forall k :: 0 <= k < |rounds| ==>
              && rounds[k].index == k && rounds[k].first == ShuffledFrom(InitialOrder(s.rounds), s.rounds - 1, orderSeed)[k]
              && RoundOf(operations, TotalWeight(operations), s, Draw(requestSeed, k), rounds[k])
  {
    hide ShuffledFrom, RoundsOf, TotalRequests, RoundOf, Draw;
    rounds := [];
    violations := ValidateWorkload(operations, s);
    if violations != [] {
      return;
    }
    var total := WeightSum(operations);
    var orders := new Target[s.rounds](i => if i < s.rounds / 2 then Baseline else Candidate);
    assert orders[..] == InitialOrder(s.rounds);
    var orderRandom := new Generator(orderSeed);
    Shuffle(orders, orderRandom);
    rounds := BuildRounds(operations, total, s, orders[..], requestSeed);
    RoundsAreNumbered(operations, total, s, requestSeed, orders[..], rounds);
  }

  lemma RoundsAreNumbered(operations: seq<Operation>, total: Word, s: Schedule, requestSeed: Word,
                          firsts: seq<Target>, rounds: seq<Round>)
    requires s.ratePerSecond > 0 && total > 0 && |rounds| <= |firsts|
    requires RoundsOf(operations, total, s, requestSeed, firsts, rounds)
    ensures forall k :: 0 <= k < |rounds| ==>
              && rounds[k].index == k && rounds[k].first == firsts[k]
              && RoundOf(operations, total, s, Draw(requestSeed, k), rounds[k])
  {
    hide RoundOf, Draw;
  }

  lemma DrawFromState(seed: Word, n: nat)
    ensures Draw(StateAfter(seed, n), 0) == Draw(seed, n)
    ensures StateAfter(StateAfter(seed, n), 1) == StateAfter(seed, n + 1)
  {
    StateAfterSum(seed, n, 1);
  }

  function TotalRequests(rounds: seq<Round>): nat
  {
    if rounds == [] then 0
    else
      var last := rounds[|rounds| - 1];
      TotalRequests(rounds[..|rounds| - 1]) + |last.warmup| + |last.measurement|
  }

  lemma {:induction false} TotalOfEqualRounds(rounds: seq<Round>, perRound: nat)
    requires forall k :: 0 <= k < |rounds| ==> |rounds[k].warmup| + |rounds[k].measurement| == perRound
    ensures TotalRequests(rounds) == |rounds| * perRound
  {
    if rounds != [] {
      TotalOfEqualRounds(rounds[..|rounds| - 1], perRound);
    }
  }

  /** Running every round on both targets stays within the request inventory that validation bounded. */
  lemma PlanStaysWithinInventory(s: Schedule, rounds: seq<Round>)
    requires ScheduleAccepted(s) && |rounds| == s.rounds
    requires forall k :: 0 <= k < |rounds| ==>
      && |rounds[k].warmup| == RequestCount(s.ratePerSecond, s.warmup)
      && |rounds[k].measurement| == RequestCount(s.ratePerSecond, s.measurement)
    ensures 2 * TotalRequests(rounds) <= MAX_REQUESTS
  {
    var perRound := RequestCount(s.ratePerSecond, s.warmup) + RequestCount(s.ratePerSecond, s.measurement);
    TotalOfEqualRounds(rounds, perRound);
    assert 2 * s.rounds * perRound == 2 * (s.rounds * perRound);
  }

  /** Within a phase the arrivals are strictly increasing offsets inside the phase. */
  lemma PhaseIsOrdered(operations: seq<Operation>, total: Word, rate: Int64, duration: Int64, seed: Word, requests: seq<Request>)
    requires 0 < rate <= MAX_RATE && duration >= 0 && total > 0
    requires PhaseOf(operations, total, rate, duration, seed, requests)
    ensures forall j, k :: 0 <= j < k < |requests| ==> requests[j].offsetNanos < requests[k].offsetNanos
    ensures forall k :: 0 <= k < |requests| ==> 0 <= requests[k].offsetNanos < duration
  {
    forall j, k | 0 <= j < k < |requests|
      ensures requests[j].offsetNanos < requests[k].offsetNanos
    {
      OffsetsIncrease(rate, j, k);
    }
    forall k | 0 <= k < |requests|
      ensures 0 <= requests[k].offsetNanos < duration
    {
      OffsetsAreWithinPhase(rate, duration, k);
    }
  }
}
