/** The seeded 64-bit generator of the benchmark schedule: a counter with an odd increment whose
    value is passed through an invertible mix.  Unsigned words are integers below 2^64 and every
    wrap-around is written out. */
module SplitMix {

  const TWO64: nat := 0x1_0000_0000_0000_0000
  const GAMMA: nat := 0x9e37_79b9_7f4a_7c15
  const GAMMA_INVERSE: nat := 0xf1de_83e1_9937_733d
  const FACTOR1: nat := 0xbf58_476d_1ce4_e5b9
  const FACTOR1_INVERSE: nat := 0x96de_1b17_3f11_9089
  const FACTOR2: nat := 0x94d0_49bb_1331_11eb
  const FACTOR2_INVERSE: nat := 0x3196_42b2_d24d_8ec3

  type Word = x: nat | x < TWO64 witness 0

  /* ---------- exclusive or on natural numbers ---------- */

  function Xor(a: nat, b: nat): nat
    decreases a + b
  {
    if a == 0 && b == 0 then 0
    else 2 * Xor(a / 2, b / 2) + (if a % 2 == b % 2 then 0 else 1)
  }

  lemma {:induction false} XorCancels(a: nat, b: nat)
    ensures Xor(Xor(a, b), b) == a
    decreases a + b
  {
    if a != 0 || b != 0 {
      XorCancels(a / 2, b / 2);
      assert Xor(a, b) / 2 == Xor(a / 2, b / 2);
    }
  }

  lemma {:induction false} XorBound(a: nat, b: nat, bits: nat)
    requires a < Pow2(bits) && b < Pow2(bits)
    ensures Xor(a, b) < Pow2(bits)
  {
    if bits != 0 {
      XorBound(a / 2, b / 2, bits - 1);
    }
  }

  lemma {:induction false} XorZero(b: nat)
    ensures Xor(0, b) == b
  {
    if b != 0 { XorZero(b / 2); }
  }

  /* ---------- logical shift right ---------- */

  function Pow2(n: nat): (p: nat)
    ensures p >= 1
  {
    if n == 0 then 1 else 2 * Pow2(n - 1)
  }

  function Shr(x: nat, k: nat): (y: nat)
    ensures y <= x
    ensures k > 0 && x > 0 ==> y < x
    decreases x, k
  {
    if k == 0 then x else Shr(x / 2, k - 1)
  }

  lemma {:induction false} ShrOfXor(a: nat, b: nat, k: nat)
    ensures Shr(Xor(a, b), k) == Xor(Shr(a, k), Shr(b, k))
    decreases k
  {
    if k != 0 {
      assert Xor(a, b) / 2 == Xor(a / 2, b / 2);
      ShrOfXor(a / 2, b / 2, k - 1);
    }
  }

  /* ---------- the mix and its inverse ---------- */

  function XorShift(x: nat, k: nat): nat { Xor(x, Shr(x, k)) }

  function UnXorShift(y: nat, k: nat): nat
    requires k > 0
    decreases y
  {
    if y == 0 then 0 else Xor(y, UnXorShift(Shr(y, k), k))
  }

  lemma {:induction false} UnXorShiftInverts(x: nat, k: nat)
    requires k > 0
    ensures UnXorShift(XorShift(x, k), k) == x
    decreases x
  {
    var low := Shr(x, k);
    XorCancels(x, low);
    ShrOfXor(x, low, k);
    if x == 0 {
    } else {
      UnXorShiftInverts(low, k);
      XorZero(low);
    }
  }

  lemma {:induction false} XorShiftInverts(y: nat, k: nat)
    requires k > 0
    ensures XorShift(UnXorShift(y, k), k) == y
    decreases y
  {
    if y != 0 {
      var shifted := Shr(y, k);
      var w := UnXorShift(shifted, k);
      XorShiftInverts(shifted, k);
      ShrOfXor(y, w, k);
      XorCancels(w, Shr(w, k));
      XorCancels(y, w);
    }
  }

  lemma {:induction false} UnXorShiftBound(y: nat, k: nat, bits: nat)
    requires k > 0 && y < Pow2(bits)
    ensures UnXorShift(y, k) < Pow2(bits)
    decreases y
  {
    if y != 0 {
      UnXorShiftBound(Shr(y, k), k, bits);
      XorBound(y, UnXorShift(Shr(y, k), k), bits);
    }
  }

  lemma {:induction false} Pow2Sum(m: nat, n: nat)
    ensures Pow2(m + n) == Pow2(m) * Pow2(n)
  {
    if m != 0 {
      Pow2Sum(m - 1, n);
      var p, q := Pow2(m - 1), Pow2(n);
      assert 2 * (p * q) == (2 * p) * q;
    }
  }

  lemma Pow2Doubled(n: nat, power: nat)
    requires Pow2(n) == power
    ensures Pow2(n + n) == power * power
  {
    Pow2Sum(n, n);
  }

  lemma Pow2Is64()
    ensures Pow2(64) == TWO64
  {
    Pow2Doubled(4, 0x10);
    Pow2Doubled(8, 0x100);
    Pow2Doubled(16, 0x1_0000);
    Pow2Doubled(32, 0x1_0000_0000);
  }

  function Shift(x: Word, k: nat): (y: Word)
  {
    Pow2Is64();
    XorBound(x, Shr(x, k), 64);
    XorShift(x, k)
  }

  function UnShift(y: Word, k: nat): (x: Word)
    requires k > 0
  {
    Pow2Is64();
    UnXorShiftBound(y, k, 64);
    UnXorShift(y, k)
  }

  function Mul(x: Word, factor: Word): Word { x * factor % TWO64 }

  lemma MulInverts(x: Word, factor: Word, inverse: Word)
    requires factor * inverse % TWO64 == 1
    ensures Mul(Mul(x, factor), inverse) == x
  {
    var y := x * factor % TWO64;
    var q := x * factor / TWO64;
    var r := factor * inverse / TWO64;
    assert y * inverse + q * inverse * TWO64 == x * factor * inverse == x * (factor * inverse);
    assert x * (factor * inverse) == x + x * r * TWO64;
    assert y * inverse == (x * r - q * inverse) * TWO64 + x;
    ModUnique(y * inverse, x * r - q * inverse, x);
  }

  lemma ModUnique(a: int, q: int, r: int)
    requires a == q * TWO64 + r && 0 <= r < TWO64
    ensures a % TWO64 == r
  {}

  lemma ShiftInverts(word: Word, k: nat)
    requires k > 0
    ensures UnShift(Shift(word, k), k) == word
    ensures Shift(UnShift(word, k), k) == word
  {
    UnXorShiftInverts(word, k);
    XorShiftInverts(word, k);
  }

  function MixWith(state: Word, k1: nat, factor1: Word, k2: nat, factor2: Word, k3: nat): Word
  {
    Shift(Mul(Shift(Mul(Shift(state, k1), factor1), k2), factor2), k3)
  }

  function UnmixWith(value: Word, k1: nat, inverse1: Word, k2: nat, inverse2: Word, k3: nat): Word
    requires k1 > 0 && k2 > 0 && k3 > 0
  {
    UnShift(Mul(UnShift(Mul(UnShift(value, k3), inverse2), k2), inverse1), k1)
  }

  lemma MixWithInverts(word: Word, k1: nat, f1: Word, i1: Word, k2: nat, f2: Word, i2: Word, k3: nat)
    requires k1 > 0 && k2 > 0 && k3 > 0
    requires f1 * i1 % TWO64 == 1 && f2 * i2 % TWO64 == 1
    ensures UnmixWith(MixWith(word, k1, f1, k2, f2, k3), k1, i1, k2, i2, k3) == word
    ensures MixWith(UnmixWith(word, k1, i1, k2, i2, k3), k1, f1, k2, f2, k3) == word
  {
    var a := Mul(Shift(word, k1), f1);
    var b := Mul(Shift(a, k2), f2);
    ShiftInverts(b, k3);
    MulInverts(Shift(a, k2), f2, i2);
    ShiftInverts(a, k2);
    MulInverts(Shift(word, k1), f1, i1);
    ShiftInverts(word, k1);

    var b' := UnShift(word, k3);
    var a' := UnShift(Mul(b', i2), k2);
    assert i2 * f2 == f2 * i2 && i1 * f1 == f1 * i1;
    ShiftInverts(word, k3);
    MulInverts(b', i2, f2);
    ShiftInverts(Mul(b', i2), k2);
    MulInverts(a', i1, f1);
    ShiftInverts(Mul(a', i1), k1);
  }

  function Mix(state: Word): Word { MixWith(state, 30, FACTOR1, 27, FACTOR2, 31) }

  function Unmix(value: Word): Word { UnmixWith(value, 30, FACTOR1_INVERSE, 27, FACTOR2_INVERSE, 31) }

  /** The mix is a bijection of the 64-bit words: no two states give the same output and every
      output is given by some state. */
  lemma MixIsBijective(word: Word)
    ensures Unmix(Mix(word)) == word
    ensures Mix(Unmix(word)) == word
  {
    MixWithInverts(word, 30, FACTOR1, FACTOR1_INVERSE, 27, FACTOR2, FACTOR2_INVERSE, 31);
  }

  /* ---------- the counter ---------- */

  function Advance(state: Word): Word { (state + GAMMA) % TWO64 }

  /** State after n calls of `next`. */
  function StateAfter(seed: Word, n: nat): Word
  {
    if n == 0 then seed else Advance(StateAfter(seed, n - 1))
  }

  /** The n-th output (counted from 0) of a generator seeded with `seed`. */
  function Draw(seed: Word, n: nat): Word { Mix(StateAfter(seed, n + 1)) }

  lemma {:induction false} StateAfterSum(seed: Word, m: nat, n: nat)
    ensures StateAfter(seed, m + n) == StateAfter(StateAfter(seed, m), n)
  {
    if n != 0 {
      StateAfterSum(seed, m, n - 1);
      assert StateAfter(seed, m + n) == Advance(StateAfter(seed, m + (n - 1)));
    }
  }

  /** How often the counter has wrapped after n calls. */
  lemma {:induction false} CounterIsLinear(seed: Word, n: nat) returns (wraps: nat)
    ensures StateAfter(seed, n) + wraps * 0x1_0000_0000_0000_0000 == seed + n * 0x9e37_79b9_7f4a_7c15
  {
    if n == 0 {
      wraps := 0;
    } else {
      var before := CounterIsLinear(seed, n - 1);
      wraps := before + (StateAfter(seed, n - 1) + 0x9e37_79b9_7f4a_7c15) / 0x1_0000_0000_0000_0000;
    }
  }

  lemma OddStepClosesOnlyAtFullPeriod(d: int, q: int)
    requires d * 0x9e37_79b9_7f4a_7c15 == q * 0x1_0000_0000_0000_0000
    ensures d % 0x1_0000_0000_0000_0000 == 0
  {
    var multiple := q * GAMMA_INVERSE - d * 0x957b_bf35_006e_d677;
    assert d == multiple * 0x1_0000_0000_0000_0000;
  }

  lemma StatesDistinct(seed: Word, j: nat, k: nat)
    requires j < k < j + TWO64
    ensures StateAfter(seed, j) != StateAfter(seed, k)
  {
    var a := CounterIsLinear(seed, j);
    var b := CounterIsLinear(seed, k);
    if StateAfter(seed, j) == StateAfter(seed, k) {
      OddStepClosesOnlyAtFullPeriod(k - j, b - a);
      assert false;
    }
  }

  lemma MixIsInjective(left: Word, right: Word)
    requires left != right
    ensures Mix(left) != Mix(right)
  {
    MixIsBijective(left);
    MixIsBijective(right);
  }

  /** The period is full: within 2^64 consecutive calls no output repeats. */
  lemma DrawsDistinct(seed: Word, j: nat, k: nat)
    requires j < k < j + TWO64
    ensures Draw(seed, j) != Draw(seed, k)
  {
    StatesDistinct(seed, j + 1, k + 1);
    MixIsInjective(StateAfter(seed, j + 1), StateAfter(seed, k + 1));
  }
}
