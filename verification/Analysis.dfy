/** The paired bootstrap decision: per-round deltas, a seeded resampling of their means, a percentile
    interval, and the regression rule with its overflow guards.  Floating point is modelled by the
    reals; the 64-bit sums are exact. */
module Analysis {
  import opened SplitMix
  import opened Sampling
  import opened Workload
  import opened OrderStatistics
  import opened SchedulePlan
  import opened Arithmetic

  datatype Trial = Trial(round: int, p95Nanos: Int64)

  datatype Settings = Settings(
    seed: Word,
    resamples: int,
    confidence: real,
    relativeThreshold: real,
    absoluteThreshold: Int64)

  datatype Report = Report(
    absoluteDeltas: seq<Int64>,
    relativeDeltas: seq<real>,
    meanAbsolute: real,
    meanRelative: real,
    lowerIndex: nat,
    upperIndex: nat,
    lower: real,
    upper: real,
    regression: bool)

  datatype Outcome =
    | Analyzed(report: Report)
    | InvalidInputs
    | InvalidPair(round: nat)
    | SumOverflow
    | ThresholdOverflow

  /* ---------- specification ---------- */

  predicate InputsAccepted(baseline: seq<Trial>, candidate: seq<Trial>, s: Settings)
  {
    && |baseline| != 0 && |baseline| == |candidate| < TWO64
    && s.resamples > 0 && 0.0 < s.confidence < 1.0
    && s.relativeThreshold >= 0.0 && s.absoluteThreshold >= 0
  }

  predicate PairAccepted(b: Trial, c: Trial)
  {
    b.round == c.round && b.p95Nanos > 0
  }

  /** The difference the source computes: it wraps, but not for nonnegative latencies. */
  function Delta(b: Trial, c: Trial): Int64 { Wrap(c.p95Nanos - b.p95Nanos) }

  function Deltas(baseline: seq<Trial>, candidate: seq<Trial>): (d: seq<Int64>)
    requires |baseline| == |candidate|
    ensures |d| == |baseline|
  {
    seq(|baseline|, i requires 0 <= i < |baseline| => Delta(baseline[i], candidate[i]))
  }

  function RelativeDeltas(baseline: seq<Trial>, candidate: seq<Trial>): (d: seq<real>)
    requires |baseline| == |candidate|
    requires forall i :: 0 <= i < |baseline| ==> baseline[i].p95Nanos > 0
    ensures |d| == |baseline|
  {
    seq(|baseline|, i requires 0 <= i < |baseline| =>
      Delta(baseline[i], candidate[i]) as real / baseline[i].p95Nanos as real)
  }

  predicate SumFits(deltas: seq<Int64>)
  {
    forall k :: 0 <= k <= |deltas| ==> MIN_INT64 <= Sum(deltas[..k]) <= MAX_INT64
  }

  /** The k-th value drawn by the bootstrap. */
  ghost function Resample(deltas: seq<real>, seed: Word, k: nat): real
    requires 0 < |deltas| < TWO64
  {
    deltas[BoundedDraw(seed, |deltas|, k)]
  }

  /** The values of one replicate: as many draws as there are rounds. */
  ghost function Replicate(deltas: seq<real>, seed: Word, r: nat): (values: seq<real>)
    requires 0 < |deltas| < TWO64
    ensures |values| == |deltas|
  {
    seq(|deltas|, j requires 0 <= j < |deltas| => Resample(deltas, seed, r * |deltas| + j))
  }

  ghost function BootstrapMeans(deltas: seq<real>, seed: Word, resamples: nat): (means: seq<real>)
    requires 0 < |deltas| < TWO64
    ensures |means| == resamples
  {
    seq(resamples, r requires 0 <= r < resamples => Mean(Replicate(deltas, seed, r)))
  }

  function Alpha(confidence: real): real { (1.0 - confidence) / 2.0 }

  ghost function Lower(deltas: seq<real>, s: Settings): real
    requires 0 < |deltas| < TWO64 && s.resamples > 0
  {
    Sorted(BootstrapMeans(deltas, s.seed, s.resamples))[NearestRankIndex(s.resamples, Alpha(s.confidence))]
  }

  ghost function Upper(deltas: seq<real>, s: Settings): real
    requires 0 < |deltas| < TWO64 && s.resamples > 0
  {
    Sorted(BootstrapMeans(deltas, s.seed, s.resamples))[NearestRankIndex(s.resamples, 1.0 - Alpha(s.confidence))]
  }

  /** The decision: the mean absolute delta reaches its threshold and the interval lies above the
      relative one. */
  ghost predicate IsRegression(baseline: seq<Trial>, candidate: seq<Trial>, s: Settings)
    requires InputsAccepted(baseline, candidate, s)
    requires forall i :: 0 <= i < |baseline| ==> baseline[i].p95Nanos > 0
  {
    && Sum(Deltas(baseline, candidate)) as real / |baseline| as real >= s.absoluteThreshold as real
    && Lower(RelativeDeltas(baseline, candidate), s) > s.relativeThreshold
  }

  /** Everything but the threshold product succeeds. */
  ghost predicate PairsAccepted(baseline: seq<Trial>, candidate: seq<Trial>)
    requires |baseline| == |candidate|
  {
    && (forall i :: 0 <= i < |baseline| ==> PairAccepted(baseline[i], candidate[i]))
    && SumFits(Deltas(baseline, candidate))
  }

  predicate InRange(x: int) { MIN_INT64 <= x <= MAX_INT64 }

  /** The pairs before the round are accepted, and so are their partial sums. */
  ghost predicate ReachesRound(baseline: seq<Trial>, candidate: seq<Trial>, k: nat)
    requires |baseline| == |candidate|
  {
    && k < |baseline|
    && (forall i :: 0 <= i < k ==> PairAccepted(baseline[i], candidate[i]))
    && forall i :: 0 <= i <= k ==> InRange(Sum(Deltas(baseline, candidate)[..i]))
  }

  ghost predicate InvalidAt(baseline: seq<Trial>, candidate: seq<Trial>, k: nat)
    requires |baseline| == |candidate|
  {
    ReachesRound(baseline, candidate, k) && !PairAccepted(baseline[k], candidate[k])
  }

  ghost predicate OverflowsAt(baseline: seq<Trial>, candidate: seq<Trial>, k: nat)
    requires |baseline| == |candidate|
  {
    && ReachesRound(baseline, candidate, k) && PairAccepted(baseline[k], candidate[k])
    && !InRange(Sum(Deltas(baseline, candidate)[..k + 1]))
  }

  /* ---------- the computation ---------- */

  datatype DeltaOutcome =
    | Computed(sum: Int64, absolute: seq<Int64>, relative: seq<real>)
    | Rejected(outcome: Outcome)

  method ComputeDeltas(baseline: seq<Trial>, candidate: seq<Trial>) returns (result: DeltaOutcome)
    requires |baseline| == |candidate|
    ensures result.Computed? <==> PairsAccepted(baseline, candidate)
    ensures result.Computed? ==>
      && result.absolute == Deltas(baseline, candidate)
      && result.relative == RelativeDeltas(baseline, candidate)
      && result.sum == Sum(result.absolute)
    ensures forall k :: result == Rejected(InvalidPair(k)) <==> InvalidAt(baseline, candidate, k)
    ensures result == Rejected(SumOverflow) <==> exists k :: OverflowsAt(baseline, candidate, k)
    ensures result.Rejected? ==> result.outcome.InvalidPair? || result.outcome.SumOverflow?
  {
    hide Wrap, Sum;
    var sum: Int64, absolute, relative := 0, [], [];
    ghost var deltas := Deltas(baseline, candidate);
    SumPrefix(deltas, 0);
    for index := 0 to |baseline|
      invariant forall i :: 0 <= i < index ==> PairAccepted(baseline[i], candidate[i])
      invariant absolute == deltas[..index]
      invariant |relative| == index
      invariant forall i :: 0 <= i < index ==> relative[i] == deltas[i] as real / baseline[i].p95Nanos as real
      invariant sum == Sum(deltas[..index])
      invariant forall k :: 0 <= k <= index ==> MIN_INT64 <= Sum(deltas[..k]) <= MAX_INT64
    {
      if baseline[index].round != candidate[index].round || baseline[index].p95Nanos <= 0 {
        assert InvalidAt(baseline, candidate, index);
        return Rejected(InvalidPair(index));
      }
      var delta := Wrap(candidate[index].p95Nanos - baseline[index].p95Nanos);
      SumPrefix(deltas, index + 1);
      if (delta > 0 && sum > MAX_INT64 - delta) || (delta < 0 && sum < MIN_INT64 - delta) {
        assert OverflowsAt(baseline, candidate, index);
        return Rejected(SumOverflow);
      }
      sum := sum + delta;
      absolute := absolute + [delta];
      relative := relative + [delta as real / baseline[index].p95Nanos as real];
    }
    assert deltas[..|baseline|] == deltas;
    return Computed(sum, absolute, relative);
  }

  lemma SumPrefix(values: seq<int>, k: nat)
    requires k <= |values|
    ensures Sum(values[..0]) == 0
    ensures k > 0 ==> Sum(values[..k]) == Sum(values[..k - 1]) + values[k - 1]
  {
    if k > 0 {
      assert values[..k][..k - 1] == values[..k - 1];
    }
  }

  lemma ResampleNext(deltas: seq<real>, seed: Word, k: nat)
    requires 0 < |deltas| < TWO64
    ensures var state := StateBeforeDraw(seed, |deltas|, k);
            && Resample(deltas, seed, k) == deltas[BoundedValue(state, |deltas|)]
            && StateBeforeDraw(seed, |deltas|, k + 1) == BoundedState(state, |deltas|)
  {
    hide BoundedState, BoundedValue;
  }

  lemma RealSumNext(values: seq<real>, j: nat)
    requires j < |values|
    ensures RealSum(values[..j + 1]) == RealSum(values[..j]) + values[j]
  {
    assert values[..j + 1][..j] == values[..j];
  }

  lemma NothingSums(values: seq<real>)
    ensures RealSum(values[..0]) == 0.0
  {}

  lemma MeanIsQuotient(values: seq<real>)
    requires values != []
    ensures Mean(values) == RealSum(values) / |values| as real
  {}

  method ReplicateMean(deltas: seq<real>, random: Generator, ghost seed: Word, ghost drawn: nat) returns (mean: real)
    requires 0 < |deltas| < TWO64
    requires random.state == StateBeforeDraw(seed, |deltas|, drawn)
    modifies random
    ensures random.state == StateBeforeDraw(seed, |deltas|, drawn + |deltas|)
    ensures mean == Mean(seq(|deltas|, j requires 0 <= j < |deltas| => Resample(deltas, seed, drawn + j)))
  {
    hide BoundedState, BoundedValue, BoundedDraw, StateBeforeDraw, Resample, StateAfter, FirstAccepted, LeftOver,
         RealSum, Mean;
    var sum := 0.0;
    ghost var values := seq(|deltas|, j requires 0 <= j < |deltas| => Resample(deltas, seed, drawn + j));
    assert RealSum(values[..0]) == 0.0 by { NothingSums(values); }
    for j := 0 to |deltas|
      invariant random.state == StateBeforeDraw(seed, |deltas|, drawn + j)
      invariant sum == RealSum(values[..j])
    {
      ResampleNext(deltas, seed, drawn + j);
      var drawnIndex := random.Bounded(|deltas|);
      RealSumNext(values, j);
      sum := sum + deltas[drawnIndex];
    }
    assert values[..|deltas|] == values;
    MeanIsQuotient(values);
    mean := sum / |deltas| as real;
  }

  method Bootstrap(deltas: seq<real>, seed: Word, resamples: nat) returns (means: seq<real>)
    requires 0 < |deltas| < TWO64
    ensures means == BootstrapMeans(deltas, seed, resamples)
    ensures |means| == resamples && forall r :: 0 <= r < resamples ==> IsDrawn(deltas, seed, r, means[r])
  {
    hide Mean, Resample, BoundedState;
    var random := new Generator(seed);
    means := [];
    for r := 0 to resamples
      invariant random.state == StateBeforeDraw(seed, |deltas|, r * |deltas|)
      invariant |means| == r && forall k :: 0 <= k < r ==> means[k] == Mean(Replicate(deltas, seed, k))
    {
      var mean := ReplicateMean(deltas, random, seed, r * |deltas|);
      assert Replicate(deltas, seed, r)
          == seq(|deltas|, j requires 0 <= j < |deltas| => Resample(deltas, seed, r * |deltas| + j));
      means := means + [mean];
      assert (r + 1) * |deltas| == r * |deltas| + |deltas|;
    }
    hide IsDrawn;
    MeansAreDrawn(deltas, seed, resamples);
    assert means == BootstrapMeans(deltas, seed, resamples);
  }

  /** The r-th replicate takes the next draws of the generator, as many as there are rounds; these are its values and this
      is their mean. */
  ghost predicate DrawnMean(deltas: seq<real>, seed: Word, r: nat, values: seq<real>, mean: real)
    requires 0 < |deltas| < TWO64
  {
    && |values| == |deltas| && mean == RealSum(values) / |deltas| as real
    && forall j :: 0 <= j < |values| ==> values[j] == deltas[BoundedDraw(seed, |deltas|, r * |deltas| + j)]
  }

  ghost predicate IsDrawn(deltas: seq<real>, seed: Word, r: nat, mean: real)
    requires 0 < |deltas| < TWO64
  {
    exists values :: DrawnMean(deltas, seed, r, values, mean)
  }

  lemma MeansAreDrawn(deltas: seq<real>, seed: Word, resamples: nat)
    requires 0 < |deltas| < TWO64
    ensures forall r :: 0 <= r < resamples ==>
              IsDrawn(deltas, seed, r, BootstrapMeans(deltas, seed, resamples)[r])
  {
    hide BoundedDraw, RealSum;
    forall r | 0 <= r < resamples
      ensures IsDrawn(deltas, seed, r, BootstrapMeans(deltas, seed, resamples)[r])
    {
      var values := Replicate(deltas, seed, r);
      forall j | 0 <= j < |deltas|
        ensures values[j] == deltas[BoundedDraw(seed, |deltas|, r * |deltas| + j)]
      {
        assert values[j] == Resample(deltas, seed, r * |deltas| + j);
      }
      assert BootstrapMeans(deltas, seed, resamples)[r] == Mean(values);
      assert DrawnMean(deltas, seed, r, values, BootstrapMeans(deltas, seed, resamples)[r]);
    }
  }

  /** The guarded comparison of the 64-bit sum with the 64-bit product decides exactly whether the mean
      reaches the threshold. */
  lemma MeanRule(sum: int, count: nat, threshold: nat)
    requires count > 0
    ensures sum >= threshold * count <==> sum as real / count as real >= threshold as real
  {
    var n, t, x := count as real, threshold as real, sum as real;
    assert (threshold * count) as real == t * n;
    assert t * n / n == t;
    if sum >= threshold * count {
      DivideOrder(t * n, x, n);
    } else {
      DivideStrictly(x, t * n, n);
    }
  }

  /** Two trials of one round with a positive baseline. */
  predicate Comparable(b: Trial, c: Trial) { c.round == b.round && b.p95Nanos >= 1 }

  predicate LeavesInt64(x: int) { x < -0x8000_0000_0000_0000 || x >= 0x8000_0000_0000_0000 }

  lemma RejectionMeans(baseline: seq<Trial>, candidate: seq<Trial>, outcome: Outcome)
    requires |baseline| == |candidate|
    requires outcome.InvalidPair? ==> InvalidAt(baseline, candidate, outcome.round)
    requires outcome == SumOverflow ==> exists k :: OverflowsAt(baseline, candidate, k)
    ensures outcome.InvalidPair? ==>
      && outcome.round < |baseline| && !Comparable(baseline[outcome.round], candidate[outcome.round])
      && forall i :: 0 <= i < outcome.round ==> Comparable(baseline[i], candidate[i])
    ensures outcome == SumOverflow ==>
      exists k :: 0 < k <= |baseline| && LeavesInt64(Sum(Deltas(baseline, candidate)[..k]))
  {
    hide Sum;
    if outcome == SumOverflow {
      var k :| OverflowsAt(baseline, candidate, k);
      assert LeavesInt64(Sum(Deltas(baseline, candidate)[..k + 1]));
    }
  }

  lemma AcceptanceMeans(baseline: seq<Trial>, candidate: seq<Trial>)
    requires |baseline| == |candidate| && PairsAccepted(baseline, candidate)
    ensures forall i :: 0 <= i < |baseline| ==> Comparable(baseline[i], candidate[i])
  {}

  method Analyze(baseline: seq<Trial>, candidate: seq<Trial>, s: Settings) returns (outcome: Outcome)
    requires |baseline| < TWO64
    ensures outcome.InvalidInputs? <==> !InputsAccepted(baseline, candidate, s)
    ensures outcome.Analyzed? <==>
      && InputsAccepted(baseline, candidate, s) && PairsAccepted(baseline, candidate)
      && s.absoluteThreshold * |baseline| <= MAX_INT64
    ensures forall k :: outcome == InvalidPair(k) <==>
              InputsAccepted(baseline, candidate, s) && InvalidAt(baseline, candidate, k)
    ensures outcome == SumOverflow <==>
              InputsAccepted(baseline, candidate, s) && exists k :: OverflowsAt(baseline, candidate, k)
    ensures outcome == ThresholdOverflow <==>
              && InputsAccepted(baseline, candidate, s) && PairsAccepted(baseline, candidate)
              && s.absoluteThreshold * |baseline| > MAX_INT64
    ensures outcome.Analyzed? ==>
      var report := outcome.report;
      && report.absoluteDeltas == Deltas(baseline, candidate)
      && report.relativeDeltas == RelativeDeltas(baseline, candidate)
      && report.meanAbsolute == Sum(report.absoluteDeltas) as real / |baseline| as real
      && report.meanRelative == Mean(report.relativeDeltas)
      && report.lower == Lower(report.relativeDeltas, s)
      && report.upper == Upper(report.relativeDeltas, s)
      && (report.regression <==> IsRegression(baseline, candidate, s))
    ensures outcome.InvalidInputs? <==>
      || |baseline| == 0 || |candidate| != |baseline| || s.resamples <= 0 || s.confidence <= 0.0 || s.confidence >= 1.0
      || s.relativeThreshold < 0.0 || s.absoluteThreshold < 0
    ensures outcome.Analyzed? ==> forall i :: 0 <= i < |baseline| ==> Comparable(baseline[i], candidate[i])
    ensures outcome.InvalidPair? ==>
      && outcome.round < |baseline| && !Comparable(baseline[outcome.round], candidate[outcome.round])
      && forall i :: 0 <= i < outcome.round ==> Comparable(baseline[i], candidate[i])
    ensures outcome.SumOverflow? ==>
      exists k :: 0 < k <= |baseline| && LeavesInt64(Sum(Deltas(baseline, candidate)[..k]))
    ensures outcome.Analyzed? ==>
      var report := outcome.report;
      && (forall i :: 0 <= i < |baseline| ==>
            report.relativeDeltas[i] == report.absoluteDeltas[i] as real / baseline[i].p95Nanos as real)
      && (report.regression <==>
            Sum(report.absoluteDeltas) >= s.absoluteThreshold * |baseline| && report.lower > s.relativeThreshold)
      && report.lowerIndex == NearestRankIndex(s.resamples, (1.0 - s.confidence) / 2.0)
      && report.upperIndex == NearestRankIndex(s.resamples, 1.0 - (1.0 - s.confidence) / 2.0)
      && report.lower == Sorted(BootstrapMeans(report.relativeDeltas, s.seed, s.resamples))[report.lowerIndex]
      && report.upper == Sorted(BootstrapMeans(report.relativeDeltas, s.seed, s.resamples))[report.upperIndex]
  {
    hide BootstrapMeans, Sorted, NearestRankIndex, Sum, InvalidAt, OverflowsAt, PairsAccepted;
    var n := |baseline|;
    if n == 0 || n != |candidate| || s.resamples <= 0 || s.confidence <= 0.0 || s.confidence >= 1.0
       || s.relativeThreshold < 0.0 || s.absoluteThreshold < 0 {
      return InvalidInputs;
    }
    var deltas := ComputeDeltas(baseline, candidate);
    if deltas.Rejected? {
      RejectionMeans(baseline, candidate, deltas.outcome);
      return deltas.outcome;
    }
    AcceptanceMeans(baseline, candidate);
    var means := Bootstrap(deltas.relative, s.seed, s.resamples);
    var sorted := Sorted(means);
    var alpha := (1.0 - s.confidence) / 2.0;
    var lowerIndex := NearestRankIndex(s.resamples, alpha);
    var upperIndex := NearestRankIndex(s.resamples, 1.0 - alpha);
    if s.absoluteThreshold > 0 {
      DivisionGuard(MAX_INT64, s.absoluteThreshold, n);
      if n > MAX_INT64 / s.absoluteThreshold {
        return ThresholdOverflow;
      }
    }
    MeanRule(deltas.sum, n, s.absoluteThreshold);
    var regression := deltas.sum >= s.absoluteThreshold * n && sorted[lowerIndex] > s.relativeThreshold;
    outcome := Analyzed(Report(deltas.absolute, deltas.relative,
      deltas.sum as real / n as real, RealSum(deltas.relative) / n as real,
      lowerIndex, upperIndex, sorted[lowerIndex], sorted[upperIndex], regression));
  }

  /* ---------- what the decision guarantees ---------- */

  ghost predicate Nonnegative(trials: seq<Trial>)
  {
    forall i :: 0 <= i < |trials| ==> trials[i].p95Nanos >= 0
  }

  lemma DeltaIsExact(b: Trial, c: Trial)
    requires b.p95Nanos >= 0 && c.p95Nanos >= 0
    ensures Delta(b, c) == c.p95Nanos - b.p95Nanos
  {}

  /** The interval lies between the least and the greatest per-round delta, in the right order. */
  lemma IntervalIsOrdered(deltas: seq<real>, s: Settings, low: real, high: real)
    requires 0 < |deltas| < TWO64 && s.resamples > 0 && 0.0 < s.confidence < 1.0
    requires forall i :: 0 <= i < |deltas| ==> low <= deltas[i] <= high
    ensures low <= Lower(deltas, s) <= Upper(deltas, s) <= high
  {
    hide BoundedValue, StateBeforeDraw, Sorted, NearestRankIndex, Mean;
    var means := BootstrapMeans(deltas, s.seed, s.resamples);
    forall r | 0 <= r < s.resamples
      ensures low <= means[r] <= high
    {
      var values := Replicate(deltas, s.seed, r);
      assert forall j :: 0 <= j < |values| ==> values[j] == Resample(deltas, s.seed, r * |deltas| + j);
      MeanStaysWithin(values, low, high);
    }
    var lower := NearestRankIndex(s.resamples, Alpha(s.confidence));
    var upper := NearestRankIndex(s.resamples, 1.0 - Alpha(s.confidence));
    NearestRankIsMonotone(s.resamples, Alpha(s.confidence), 1.0 - Alpha(s.confidence));
    SortedStaysWithin(means, low, high, lower);
    SortedStaysWithin(means, low, high, upper);
    SortedIsAscendingPermutation(means);
  }

  lemma LowerIsMonotone(deltas: seq<real>, raised: seq<real>, s: Settings)
    requires 0 < |deltas| < TWO64 && s.resamples > 0 && Below(deltas, raised)
    ensures Lower(deltas, s) <= Lower(raised, s)
  {
    hide BoundedValue, StateBeforeDraw, Sorted, NearestRankIndex, Mean;
    var means := BootstrapMeans(deltas, s.seed, s.resamples);
    var raisedMeans := BootstrapMeans(raised, s.seed, s.resamples);
    forall r | 0 <= r < s.resamples
      ensures means[r] <= raisedMeans[r]
    {
      var values, raisedValues := Replicate(deltas, s.seed, r), Replicate(raised, s.seed, r);
      assert forall j :: 0 <= j < |values| ==> values[j] == Resample(deltas, s.seed, r * |deltas| + j);
      assert forall j :: 0 <= j < |values| ==> raisedValues[j] == Resample(raised, s.seed, r * |deltas| + j);
      MeanIsMonotone(values, raisedValues);
    }
    SortedIsMonotone(means, raisedMeans);
  }

  lemma {:induction false} SumIsMonotone(a: seq<int>, b: seq<int>)
    requires |a| == |b| && forall i :: 0 <= i < |a| ==> a[i] <= b[i]
    ensures Sum(a) <= Sum(b)
  {
    if a != [] {
      SumIsMonotone(a[..|a| - 1], b[..|b| - 1]);
    }
  }

  /** Raising candidate latencies, in any rounds and by any amounts, never turns a regression verdict
      into a pass. */
  lemma SlowerNeverPasses(baseline: seq<Trial>, candidate: seq<Trial>, slower: seq<Trial>, s: Settings)
    requires InputsAccepted(baseline, candidate, s) && |slower| == |candidate|
    requires forall i :: 0 <= i < |baseline| ==> baseline[i].p95Nanos > 0
    requires Nonnegative(candidate)
    requires forall i :: 0 <= i < |candidate| ==> candidate[i].p95Nanos <= slower[i].p95Nanos
    requires IsRegression(baseline, candidate, s)
    ensures IsRegression(baseline, slower, s)
  {
    hide Lower, Sum;
    var n := |baseline| as real;
    var before, after := RelativeDeltas(baseline, candidate), RelativeDeltas(baseline, slower);
    forall i | 0 <= i < |baseline|
      ensures before[i] <= after[i] && Deltas(baseline, candidate)[i] <= Deltas(baseline, slower)[i]
    {
      DeltaIsExact(baseline[i], candidate[i]);
      DeltaIsExact(baseline[i], slower[i]);
      DivideOrder(Delta(baseline[i], candidate[i]) as real, Delta(baseline[i], slower[i]) as real, baseline[i].p95Nanos as real);
    }
    LowerIsMonotone(before, after, s);
    SumIsMonotone(Deltas(baseline, candidate), Deltas(baseline, slower));
    DivideOrder(Sum(Deltas(baseline, candidate)) as real, Sum(Deltas(baseline, slower)) as real, n);
  }

  /** A candidate that is no slower in any round is never a regression. */
  lemma NoSlowerIsNoRegression(baseline: seq<Trial>, candidate: seq<Trial>, s: Settings)
    requires InputsAccepted(baseline, candidate, s)
    requires forall i :: 0 <= i < |baseline| ==> 0 <= candidate[i].p95Nanos <= baseline[i].p95Nanos
    requires forall i :: 0 <= i < |baseline| ==> baseline[i].p95Nanos > 0
    ensures !IsRegression(baseline, candidate, s)
  {
    hide Lower, Sum;
    var deltas := RelativeDeltas(baseline, candidate);
    forall i | 0 <= i < |deltas|
      ensures -1.0 <= deltas[i] <= 0.0
    {
      DeltaIsExact(baseline[i], candidate[i]);
      var b := baseline[i].p95Nanos as real;
      DivideOrder(Delta(baseline[i], candidate[i]) as real, 0.0, b);
      DivideOrder(-b, Delta(baseline[i], candidate[i]) as real, b);
      assert -b / b == -1.0 && 0.0 / b == 0.0;
    }
    IntervalIsOrdered(deltas, s, -1.0, 0.0);
  }
}
