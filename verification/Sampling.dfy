/** Rejection sampling on top of the generator: termination, the exact number of draws, and the
    absence of bias. */
module Sampling {
  import opened SplitMix
  import opened Cardinality
  import opened Arithmetic

  /** The threshold below which an output is rejected: the wrapped negation of the bound, modulo the
      bound. */
  function Threshold(bound: Word): Word
    requires bound > 0
  {
    (TWO64 - bound) % bound
  }

  lemma ThresholdIsRemainder(bound: Word)
    requires bound > 0
    ensures Threshold(bound) == TWO64 % bound < bound
    ensures (TWO64 - Threshold(bound)) % bound == 0
  {
    var q, r := TWO64 / bound, TWO64 % bound;
    assert TWO64 - bound == bound * (q - 1) + r;
    DivModUnique(TWO64 - bound, bound, q - 1, r);
    assert TWO64 - r == bound * q + 0;
    DivModUnique(TWO64 - r, bound, q, 0);
  }

  ghost predicate RejectedBefore(seed: Word, bound: Word, n: nat)
    requires bound > 0
  {
    forall k: nat :: k < n ==> Draw(seed, k) < Threshold(bound)
  }

  ghost predicate FirstAccepted(seed: Word, bound: Word, n: nat)
    requires bound > 0
  {
    RejectedBefore(seed, bound, n) && Draw(seed, n) >= Threshold(bound)
  }

  /** No run of rejections is longer than the number of words below the threshold, because the
      outputs within one period are distinct. */
  lemma RejectionRunIsShort(seed: Word, bound: Word, n: nat)
    requires bound > 0 && RejectedBefore(seed, bound, n)
    ensures n <= TWO64 % bound
  {
    ThresholdIsRemainder(bound);
    var holes := Threshold(bound);
    if n > holes {
      var draws := seq(holes + 1, k requires 0 <= k => Draw(seed, k));
      forall i, j | 0 <= i < j < |draws|
        ensures draws[i] != draws[j]
      {
        DrawsDistinct(seed, i, j);
      }
      Pigeonhole(draws, holes);
    }
  }

  lemma {:induction false} SomeDrawIsAccepted(seed: Word, bound: Word, rejected: nat)
    requires bound > 0 && RejectedBefore(seed, bound, rejected)
    ensures exists n :: FirstAccepted(seed, bound, n)
    decreases TWO64 % bound + 1 - rejected
  {
    RejectionRunIsShort(seed, bound, rejected);
    if Draw(seed, rejected) >= Threshold(bound) {
      assert FirstAccepted(seed, bound, rejected);
    } else {
      SomeDrawIsAccepted(seed, bound, rejected + 1);
    }
  }

  /** How many outputs `bounded` throws away; at most 2^64 mod bound. */
  ghost function Rejections(seed: Word, bound: Word): (n: nat)
    requires bound > 0
    ensures FirstAccepted(seed, bound, n)
    ensures n <= TWO64 % bound
  {
    SomeDrawIsAccepted(seed, bound, 0);
    var n :| FirstAccepted(seed, bound, n);
    RejectionRunIsShort(seed, bound, n);
    n
  }

  lemma RejectionsUnique(seed: Word, bound: Word, n: nat)
    requires bound > 0 && FirstAccepted(seed, bound, n)
    ensures n == Rejections(seed, bound)
  {
    var m := Rejections(seed, bound);
    assert !(m < n) && !(n < m);
  }

  ghost function BoundedValue(seed: Word, bound: Word): (value: nat)
    requires bound > 0
    ensures value < bound
  {
    Draw(seed, Rejections(seed, bound)) % bound
  }

  /** The value is what is left of the output when the bound is taken away as often as it goes. */
  ghost predicate LeftOver(output: nat, bound: nat, value: nat)
  {
    value < bound && exists q: nat :: output == bound * q + value
  }

  lemma RemainderIsLeftOver(output: nat, bound: nat)
    requires bound > 0
    ensures LeftOver(output, bound, output % bound)
  {
    assert output == bound * (output / bound) + output % bound;
  }

  lemma LeftOverIsUnique(output: nat, bound: nat, value: nat)
    requires LeftOver(output, bound, value)
    ensures output % bound == value
  {
    var q: nat :| output == bound * q + value;
    DivModUnique(output, bound, q, value);
  }

  /** The value is left over of the first accepted output, and the state is the one after it. */
  lemma BoundedMeans(seed: Word, bound: Word, n: nat)
    requires bound > 0 && FirstAccepted(seed, bound, n)
    ensures LeftOver(Draw(seed, n), bound, BoundedValue(seed, bound))
    ensures BoundedState(seed, bound) == StateAfter(seed, n + 1)
  {
    RejectionsUnique(seed, bound, n);
    hide Draw, LeftOver, StateAfter, FirstAccepted;
    RemainderIsLeftOver(Draw(seed, n), bound);
  }

  ghost function BoundedState(seed: Word, bound: Word): Word
    requires bound > 0
  {
    StateAfter(seed, Rejections(seed, bound) + 1)
  }

  class Generator {
    var state: Word

    constructor (seed: Word)
      ensures state == seed
    {
      state := seed;
    }

    method Next() returns (value: Word)
      modifies this
      ensures state == StateAfter(old(state), 1) && value == Draw(old(state), 0)
    {
      state := (state + GAMMA) % TWO64;
      value := Mix(state);
      assert StateAfter(old(state), 0) == old(state);
    }

    /** The source loops until an output is accepted, with no bound on the number of turns; here the
        loop terminates, and consumes exactly the rejected outputs and one accepted one. */
    method Bounded(bound: Word) returns (value: nat)
      requires bound > 0
      modifies this
      ensures value == BoundedValue(old(state), bound) < bound
      ensures state == BoundedState(old(state), bound)
      ensures exists n: nat ::
                FirstAccepted(old(state), bound, n) && state == StateAfter(old(state), n + 1)
                && LeftOver(Draw(old(state), n), bound, value)
    {
      var threshold := (TWO64 - bound) % bound;
      assert threshold == Threshold(bound);
      ghost var drawn := 0;
      assert RejectedBefore(state, bound, 0) && StateAfter(state, 0) == state;
      hide *;
      while true
        invariant RejectedBefore(old(state), bound, drawn)
        invariant state == StateAfter(old(state), drawn)
        decreases TWO64 % bound + 1 - drawn
      {
        TurnOfBounded(old(state), bound, drawn);
        var output := Next();
        if output >= threshold {
          return output % bound;
        }
        drawn := drawn + 1;
      }
    }
  }

  /** One turn of the loop: the next output is the last one, or it is rejected and few enough were. */
  lemma TurnOfBounded(seed: Word, bound: Word, drawn: nat)
    requires bound > 0 && RejectedBefore(seed, bound, drawn)
    ensures drawn <= TWO64 % bound
    ensures StateAfter(StateAfter(seed, drawn), 1) == StateAfter(seed, drawn + 1)
    ensures Draw(StateAfter(seed, drawn), 0) == Draw(seed, drawn)
    ensures if Draw(seed, drawn) >= Threshold(bound)
            then
              && FirstAccepted(seed, bound, drawn)
              && Draw(seed, drawn) % bound == BoundedValue(seed, bound) && LeftOver(Draw(seed, drawn), bound, BoundedValue(seed, bound))
              && BoundedState(seed, bound) == StateAfter(seed, drawn + 1)
            else RejectedBefore(seed, bound, drawn + 1)
  {
    RejectionRunIsShort(seed, bound, drawn);
    StateAfterSum(seed, drawn, 1);
    hide BoundedValue, BoundedState, LeftOver, Mix, Threshold;
    if Draw(seed, drawn) >= Threshold(bound) {
      BoundedMeans(seed, bound, drawn);
      LeftOverIsUnique(Draw(seed, drawn), bound, BoundedValue(seed, bound));
    }
  }

  /* ---------- no bias ---------- */

  predicate Gives(bound: Word, output: nat, residue: nat)
    requires bound > 0
  {
    Threshold(bound) <= output < TWO64 && output % bound == residue
  }

  /** The raw outputs that are accepted and give this residue. */
  ghost function OutputsFor(bound: Word, residue: nat): set<nat>
    requires bound > 0
  {
    set v: nat | v < TWO64 && Gives(bound, v, residue)
  }

  /** The generator states from which the first draw is accepted and this value is returned. */
  ghost function StatesFor(bound: Word, value: nat): set<nat>
    requires bound > 0
  {
    set s: nat | s < TWO64 && Returns(bound, s, value)
  }

  ghost predicate Returns(bound: Word, state: Word, value: nat)
    requires bound > 0
  {
    FirstAccepted(state, bound, 0) && BoundedValue(state, bound) == value
  }

  lemma ReturnsGiven(bound: Word, state: Word, value: nat)
    requires bound > 0 && value < bound
    ensures Returns(bound, state, value) <==> Gives(bound, NextOutput(state), value)
  {
    hide LeftOver, BoundedValue, BoundedState, Draw;
    if FirstAccepted(state, bound, 0) {
      BoundedMeans(state, bound, 0);
      LeftOverIsUnique(Draw(state, 0), bound, BoundedValue(state, bound));
    }
  }

  function NextOutput(state: nat): nat { if state < TWO64 then Draw(state, 0) else 0 }

  /** The least accepted output with this residue. */
  function FirstOutput(bound: Word, residue: nat): nat
    requires bound > 0
  {
    if residue >= Threshold(bound) then residue else residue + bound
  }

  function OutputAt(bound: Word, residue: nat, j: nat): nat
    requires bound > 0
  {
    FirstOutput(bound, residue) + bound * j
  }

  function OutputIndex(bound: Word, residue: nat, v: nat): nat
    requires bound > 0
  {
    if v < FirstOutput(bound, residue) then 0 else (v - FirstOutput(bound, residue)) / bound
  }

  lemma OutputIsInProgression(bound: Word, residue: nat, turns: nat, v: nat)
    requires residue < bound && TWO64 == Threshold(bound) + bound * turns
    requires Gives(bound, v, residue)
    ensures OutputIndex(bound, residue, v) < turns
    ensures v == OutputAt(bound, residue, OutputIndex(bound, residue, v))
  {
    var q := v / bound;
    assert v == bound * q + residue;
    var j := if residue >= Threshold(bound) then q else q - 1;
    assert bound * (q - 1) == bound * q - bound;
    var first := FirstOutput(bound, residue);
    assert v - first == bound * j + 0;
    if j < 0 {
      MulOrder(bound, j, 0);
      assert false;
    }
    DivModUnique(v - first, bound, j, 0);
    if j > turns {
      MulOrder(bound, turns, j);
      assert false;
    }
  }

  lemma ProgressionIsOutput(bound: Word, residue: nat, turns: nat, j: nat)
    requires residue < bound && TWO64 == Threshold(bound) + bound * turns
    requires j < turns
    ensures OutputAt(bound, residue, j) < TWO64 && Gives(bound, OutputAt(bound, residue, j), residue)
    ensures OutputIndex(bound, residue, OutputAt(bound, residue, j)) == j
  {
    var v := OutputAt(bound, residue, j);
    ThresholdIsRemainder(bound);
    MulOrder(bound, j, turns);
    var q := if residue >= Threshold(bound) then j else j + 1;
    assert bound * (j + 1) == bound * j + bound;
    DivModUnique(v, bound, q, residue);
    DivModUnique(bound * j, bound, j, 0);
  }

  /** Every residue below the bound has the same number of accepted raw outputs. */
  lemma OutputsAreUnbiased(bound: Word, residue: nat)
    requires residue < bound
    ensures |OutputsFor(bound, residue)| == (TWO64 - TWO64 % bound) / bound
  {
    hide Gives, OutputAt, OutputIndex, Threshold;
    ThresholdIsRemainder(bound);
    var turns := (TWO64 - Threshold(bound)) / bound;
    assert TWO64 == Threshold(bound) + bound * turns;
    forall j: nat | j in Interval(0, turns) {
      ProgressionIsOutput(bound, residue, turns, j);
    }
    forall v | v in OutputsFor(bound, residue) {
      OutputIsInProgression(bound, residue, turns, v);
    }
    BijectionCardinality(Interval(0, turns), OutputsFor(bound, residue),
      j => OutputAt(bound, residue, j), v => OutputIndex(bound, residue, v));
  }

  function PreviousState(state: Word): Word { (state + TWO64 - GAMMA) % TWO64 }

  lemma AdvanceIsBijective(state: Word)
    ensures PreviousState(Advance(state)) == state
    ensures Advance(PreviousState(state)) == state
  {}

  lemma FirstDraw(state: Word)
    ensures Draw(state, 0) == Mix(Advance(state))
  {
    assert StateAfter(state, 0) == state;
  }

  function StateBefore(output: nat): nat
  {
    if output < TWO64 then PreviousState(Unmix(output)) else 0
  }

  lemma NextOutputIsBijective(word: nat)
    requires word < TWO64
    ensures NextOutput(word) < TWO64 && StateBefore(NextOutput(word)) == word
    ensures StateBefore(word) < TWO64 && NextOutput(StateBefore(word)) == word
  {
    FirstDraw(word);
    MixIsBijective(Advance(word));
    AdvanceIsBijective(word);
    MixIsBijective(word);
    AdvanceIsBijective(Unmix(word));
    FirstDraw(PreviousState(Unmix(word)));
  }

  /** Over all 2^64 generator states, every value below the bound is returned after the first draw from
      the same number of states. */
  lemma FirstDrawIsUnbiased(bound: Word, value: nat)
    requires value < bound
    ensures |StatesFor(bound, value)| == (TWO64 - TWO64 % bound) / bound
  {
    hide Gives, NextOutput, Returns, StateBefore;
    OutputsAreUnbiased(bound, value);
    forall s: nat | s < TWO64
      ensures NextOutput(s) < TWO64 && StateBefore(NextOutput(s)) == s
      ensures StateBefore(s) < TWO64 && NextOutput(StateBefore(s)) == s
      ensures Returns(bound, s, value) <==> Gives(bound, NextOutput(s), value)
    {
      NextOutputIsBijective(s);
      ReturnsGiven(bound, s, value);
    }
    BijectionCardinality(StatesFor(bound, value), OutputsFor(bound, value),
      s => NextOutput(s), v => StateBefore(v));
  }
}
