/** The generator evaluated: the vectors that the schedule's own tests expect. */
module GoldenVectors {
  import opened SplitMix

  /* ---------- exclusive or by hexadecimal digits ---------- */

  type Digit = x: nat | x < 16

  /** The sixteen digits of a word, the highest first. */
  type Digits = s: seq<Digit> | |s| == 16 witness [0, 0, 0, 0, 0, 0, 0, 0, 0, 0, 0, 0, 0, 0, 0, 0]

  function WordOf(s: Digits): nat
  {
    0x1_0000_0000_0000 * Four(s, 0) + 0x1_0000_0000 * Four(s, 4) + 0x1_0000 * Four(s, 8) + Four(s, 12)
  }

  /** Four digits in a row. */
  function Four(s: Digits, i: nat): nat
    requires i + 4 <= 16
  {
    var a: nat, b: nat, c: nat, d: nat := s[i], s[i + 1], s[i + 2], s[i + 3];
    0x1000 * a + 0x100 * b + 0x10 * c + d
  }

  function Differ(x: bool, y: bool): nat { if x == y then 0 else 1 }

  /** Of two digits, bit by bit. */
  function XorDigit(x: Digit, y: Digit): nat
  {
    var (x3, y3) := (if x >= 8 then x - 8 else x, if y >= 8 then y - 8 else y);
    var (x2, y2) := (if x3 >= 4 then x3 - 4 else x3, if y3 >= 4 then y3 - 4 else y3);
    var (x1, y1) := (if x2 >= 2 then x2 - 2 else x2, if y2 >= 2 then y2 - 2 else y2);
    8 * Differ(x >= 8, y >= 8) + 4 * Differ(x3 >= 4, y3 >= 4) + 2 * Differ(x2 >= 2, y2 >= 2) + Differ(x1 >= 1, y1 >= 1)
  }

  /** The digits of one word are the exclusive or of those of two others. */
  predicate IsXor(s: Digits, t: Digits, u: Digits)
  {
    FourXor(s, t, u, 0) && FourXor(s, t, u, 4) && FourXor(s, t, u, 8) && FourXor(s, t, u, 12)
  }

  predicate FourXor(s: Digits, t: Digits, u: Digits, i: nat)
    requires i + 4 <= 16
  {
    && u[i] == XorDigit(s[i], t[i]) && u[i + 1] == XorDigit(s[i + 1], t[i + 1])
    && u[i + 2] == XorDigit(s[i + 2], t[i + 2]) && u[i + 3] == XorDigit(s[i + 3], t[i + 3])
  }

  lemma XorHalf(a: nat, b: nat, i: nat, j: nat)
    requires i < 2 && j < 2
    ensures Xor(2 * a + i, 2 * b + j) == 2 * Xor(a, b) + Differ(i >= 1, j >= 1)
  {}

  lemma Bits(x: Digit) returns (x3: nat, x2: nat, x1: nat, x0: nat)
    ensures x == 8 * x3 + 4 * x2 + 2 * x1 + x0 && x3 < 2 && x2 < 2 && x1 < 2 && x0 < 2
  {
    x3 := if x >= 8 then 1 else 0;
    x2 := if x - 8 * x3 >= 4 then 1 else 0;
    x1 := if x - 8 * x3 - 4 * x2 >= 2 then 1 else 0;
    x0 := x - 8 * x3 - 4 * x2 - 2 * x1;
  }

  lemma XorNextDigit(a: nat, b: nat, x: Digit, y: Digit)
    ensures Xor(16 * a + x, 16 * b + y) == 16 * Xor(a, b) + XorDigit(x, y)
  {
    hide Xor;
    var x3, x2, x1, x0 := Bits(x);
    var y3, y2, y1, y0 := Bits(y);
    XorHalf(a, b, x3, y3);
    XorHalf(2 * a + x3, 2 * b + y3, x2, y2);
    XorHalf(4 * a + 2 * x3 + x2, 4 * b + 2 * y3 + y2, x1, y1);
    XorHalf(8 * a + 4 * x3 + 2 * x2 + x1, 8 * b + 4 * y3 + 2 * y2 + y1, x0, y0);
  }

  lemma XorNextFour(a: nat, b: nat, s: Digits, t: Digits, u: Digits, i: nat)
    requires i + 4 <= 16 && FourXor(s, t, u, i)
    ensures Xor(0x1_0000 * a + Four(s, i), 0x1_0000 * b + Four(t, i)) == 0x1_0000 * Xor(a, b) + Four(u, i)
  {
    hide Xor, XorDigit;
    var s0: nat, s1: nat, s2: nat, t0: nat, t1: nat, t2: nat := s[i], s[i + 1], s[i + 2], t[i], t[i + 1], t[i + 2];
    XorNextDigit(a, b, s[i], t[i]);
    XorNextDigit(16 * a + s0, 16 * b + t0, s[i + 1], t[i + 1]);
    XorNextDigit(0x100 * a + 16 * s0 + s1, 0x100 * b + 16 * t0 + t1, s[i + 2], t[i + 2]);
    XorNextDigit(0x1000 * a + 0x100 * s0 + 16 * s1 + s2, 0x1000 * b + 0x100 * t0 + 16 * t1 + t2, s[i + 3], t[i + 3]);
  }

  lemma XorOfWords(s: Digits, t: Digits, u: Digits)
    requires IsXor(s, t, u)
    ensures Xor(WordOf(s), WordOf(t)) == WordOf(u)
  {
    hide Xor, FourXor, Four;
    XorNextFour(0, 0, s, t, u, 0);
    XorNextFour(Four(s, 0), Four(t, 0), s, t, u, 4);
    XorNextFour(0x1_0000 * Four(s, 0) + Four(s, 4), 0x1_0000 * Four(t, 0) + Four(t, 4), s, t, u, 8);
    XorNextFour(0x1_0000_0000 * Four(s, 0) + 0x1_0000 * Four(s, 4) + Four(s, 8),
                0x1_0000_0000 * Four(t, 0) + 0x1_0000 * Four(t, 4) + Four(t, 8), s, t, u, 12);
    XorZero(0);
  }

  /* ---------- shifts ---------- */

  lemma {:induction false} ShrIs(x: nat, k: nat, q: nat, r: nat)
    requires x == Pow2(k) * q + r && r < Pow2(k)
    ensures Shr(x, k) == q
    decreases k
  {
    if k > 0 {
      var p := Pow2(k - 1);
      assert Pow2(k) * q == 2 * (p * q);
      ShrIs(x / 2, k - 1, q, r / 2);
    }
  }

  lemma SmallPowers()
    ensures Pow2(9) == 0x200 && Pow2(3) == 8 && Pow2(4) == 0x10
  {
    Pow2Sum(3, 3);
    Pow2Sum(3, 1);
    Pow2Sum(6, 3);
  }

  lemma Powers()
    ensures Pow2(27) == 0x800_0000 && Pow2(30) == 0x4000_0000 && Pow2(31) == 0x8000_0000
  {
    hide Pow2;
    SmallPowers();
    Pow2Sum(9, 9);
    Pow2Sum(18, 9);
    Pow2Sum(27, 3);
    Pow2Sum(27, 4);
  }

  /** One line of the mix: the word, the word shifted, and their exclusive or. */
  lemma ShiftOf(s: Digits, t: Digits, u: Digits, k: nat)
    requires IsXor(s, t, u)
    requires k in {27, 30, 31}
    requires WordOf(t) == WordOf(s) / if k == 27 then 0x800_0000 else if k == 30 then 0x4000_0000 else 0x8000_0000
    ensures XorShift(WordOf(s), k) == WordOf(u)
  {
    hide WordOf, IsXor, Pow2;
    Powers();
    XorOfWords(s, t, u);
    ShrIs(WordOf(s), k, WordOf(t), WordOf(s) % Pow2(k));
  }

  /* ---------- the first output for seed 0 ---------- */

  const FIRST_BY_30: Digits := [9, 14, 3, 7, 7, 9, 11, 9, 7, 15, 4, 10, 7, 12, 1, 5]
  const FIRST_SHIFTED_30: Digits := [0, 0, 0, 0, 0, 0, 0, 2, 7, 8, 13, 13, 14, 6, 14, 5]
  const FIRST_XORED_30: Digits := [9, 14, 3, 7, 7, 9, 11, 11, 0, 7, 9, 7, 9, 10, 15, 0]

  lemma FirstThirtyDigits()
    ensures IsXor(FIRST_BY_30, FIRST_SHIFTED_30, FIRST_XORED_30)
  {}

  lemma FirstThirtyValues()
    ensures WordOf(FIRST_BY_30) == 0x9e37_79b9_7f4a_7c15 && WordOf(FIRST_SHIFTED_30) == 0x2_78dd_e6e5
    ensures WordOf(FIRST_XORED_30) == 0x9e37_79bb_0797_9af0
  {}

  lemma FirstThirty()
    ensures XorShift(0x9e37_79b9_7f4a_7c15, 30) == 0x9e37_79bb_0797_9af0
  {
    hide *;
    FirstThirtyDigits();
    FirstThirtyValues();
    ShiftOf(FIRST_BY_30, FIRST_SHIFTED_30, FIRST_XORED_30, 30);
  }

  const FIRST_BY_27: Digits := [6, 15, 6, 8, 2, 6, 1, 11, 5, 7, 14, 7, 10, 7, 7, 0]
  const FIRST_SHIFTED_27: Digits := [0, 0, 0, 0, 0, 0, 0, 13, 14, 13, 0, 4, 12, 3, 6, 10]
  const FIRST_XORED_27: Digits := [6, 15, 6, 8, 2, 6, 1, 6, 11, 10, 14, 3, 6, 4, 1, 10]

  lemma FirstTwentySevenDigits()
    ensures IsXor(FIRST_BY_27, FIRST_SHIFTED_27, FIRST_XORED_27)
  {}

  lemma FirstTwentySevenValues()
    ensures WordOf(FIRST_BY_27) == 0x6f68_261b_57e7_a770 && WordOf(FIRST_SHIFTED_27) == 0xd_ed04_c36a
    ensures WordOf(FIRST_XORED_27) == 0x6f68_2616_bae3_641a
  {}

  lemma FirstTwentySeven()
    ensures XorShift(0x6f68_261b_57e7_a770, 27) == 0x6f68_2616_bae3_641a
  {
    hide *;
    FirstTwentySevenDigits();
    FirstTwentySevenValues();
    ShiftOf(FIRST_BY_27, FIRST_SHIFTED_27, FIRST_XORED_27, 27);
  }

  const FIRST_BY_31: Digits := [14, 2, 2, 0, 10, 8, 3, 8, 11, 15, 5, 12, 9, 13, 13, 14]
  const FIRST_SHIFTED_31: Digits := [0, 0, 0, 0, 0, 0, 0, 1, 12, 4, 4, 1, 5, 0, 7, 1]
  const FIRST_XORED_31: Digits := [14, 2, 2, 0, 10, 8, 3, 9, 7, 11, 1, 13, 12, 13, 10, 15]

  lemma FirstThirtyOneDigits()
    ensures IsXor(FIRST_BY_31, FIRST_SHIFTED_31, FIRST_XORED_31)
  {}

  lemma FirstThirtyOneValues()
    ensures WordOf(FIRST_BY_31) == 0xe220_a838_bf5c_9dde && WordOf(FIRST_SHIFTED_31) == 0x1_c441_5071
    ensures WordOf(FIRST_XORED_31) == 0xe220_a839_7b1d_cdaf
  {}

  lemma FirstThirtyOne()
    ensures XorShift(0xe220_a838_bf5c_9dde, 31) == 0xe220_a839_7b1d_cdaf
  {
    hide *;
    FirstThirtyOneDigits();
    FirstThirtyOneValues();
    ShiftOf(FIRST_BY_31, FIRST_SHIFTED_31, FIRST_XORED_31, 31);
  }

  /* ---------- the second output for seed 0 ---------- */

  const SECOND_BY_30: Digits := [3, 12, 6, 14, 15, 3, 7, 2, 15, 14, 9, 4, 15, 8, 2, 10]
  const SECOND_SHIFTED_30: Digits := [0, 0, 0, 0, 0, 0, 0, 0, 15, 1, 11, 11, 12, 13, 12, 11]
  const SECOND_XORED_30: Digits := [3, 12, 6, 14, 15, 3, 7, 2, 0, 15, 2, 15, 3, 5, 14, 1]

  lemma SecondThirtyDigits()
    ensures IsXor(SECOND_BY_30, SECOND_SHIFTED_30, SECOND_XORED_30)
  {}

  lemma SecondThirtyValues()
    ensures WordOf(SECOND_BY_30) == 0x3c6e_f372_fe94_f82a && WordOf(SECOND_SHIFTED_30) == 0xf1bb_cdcb
    ensures WordOf(SECOND_XORED_30) == 0x3c6e_f372_0f2f_35e1
  {}

  lemma SecondThirty()
    ensures XorShift(0x3c6e_f372_fe94_f82a, 30) == 0x3c6e_f372_0f2f_35e1
  {
    hide *;
    SecondThirtyDigits();
    SecondThirtyValues();
    ShiftOf(SECOND_BY_30, SECOND_SHIFTED_30, SECOND_XORED_30, 30);
  }

  const SECOND_BY_27: Digits := [2, 10, 9, 4, 15, 12, 11, 15, 12, 12, 11, 4, 3, 4, 9, 9]
  const SECOND_SHIFTED_27: Digits := [0, 0, 0, 0, 0, 0, 0, 5, 5, 2, 9, 15, 9, 7, 15, 9]
  const SECOND_XORED_27: Digits := [2, 10, 9, 4, 15, 12, 11, 10, 9, 14, 2, 11, 10, 3, 6, 0]

  lemma SecondTwentySevenDigits()
    ensures IsXor(SECOND_BY_27, SECOND_SHIFTED_27, SECOND_XORED_27)
  {}

  lemma SecondTwentySevenValues()
    ensures WordOf(SECOND_BY_27) == 0x2a94_fcbf_ccb4_3499 && WordOf(SECOND_SHIFTED_27) == 0x5_529f_97f9
    ensures WordOf(SECOND_XORED_27) == 0x2a94_fcba_9e2b_a360
  {}

  lemma SecondTwentySeven()
    ensures XorShift(0x2a94_fcbf_ccb4_3499, 27) == 0x2a94_fcba_9e2b_a360
  {
    hide *;
    SecondTwentySevenDigits();
    SecondTwentySevenValues();
    ShiftOf(SECOND_BY_27, SECOND_SHIFTED_27, SECOND_XORED_27, 27);
  }

  const SECOND_BY_31: Digits := [6, 14, 7, 8, 9, 14, 6, 10, 7, 13, 4, 8, 5, 9, 2, 0]
  const SECOND_SHIFTED_31: Digits := [0, 0, 0, 0, 0, 0, 0, 0, 13, 12, 15, 1, 3, 12, 13, 4]
  const SECOND_XORED_31: Digits := [6, 14, 7, 8, 9, 14, 6, 10, 10, 1, 11, 9, 6, 5, 15, 4]

  lemma SecondThirtyOneDigits()
    ensures IsXor(SECOND_BY_31, SECOND_SHIFTED_31, SECOND_XORED_31)
  {}

  lemma SecondThirtyOneValues()
    ensures WordOf(SECOND_BY_31) == 0x6e78_9e6a_7d48_5920 && WordOf(SECOND_SHIFTED_31) == 0xdcf1_3cd4
    ensures WordOf(SECOND_XORED_31) == 0x6e78_9e6a_a1b9_65f4
  {}

  lemma SecondThirtyOne()
    ensures XorShift(0x6e78_9e6a_7d48_5920, 31) == 0x6e78_9e6a_a1b9_65f4
  {
    hide *;
    SecondThirtyOneDigits();
    SecondThirtyOneValues();
    ShiftOf(SECOND_BY_31, SECOND_SHIFTED_31, SECOND_XORED_31, 31);
  }

  /** The first two outputs for seed 0. */
  lemma SeedZero()
    ensures Draw(0, 0) == 0xe220_a839_7b1d_cdaf && Draw(0, 1) == 0x6e78_9e6a_a1b9_65f4
  {
    FirstThirty();
    FirstTwentySeven();
    FirstThirtyOne();
    SecondThirty();
    SecondTwentySeven();
    SecondThirtyOne();
    hide XorShift;
    assert StateAfter(0, 1) == 0x9e37_79b9_7f4a_7c15 && StateAfter(0, 2) == 0x3c6e_f372_fe94_f82a;
    assert Mul(0x9e37_79bb_0797_9af0, FACTOR1) == 0x6f68_261b_57e7_a770 && Mul(0x6f68_2616_bae3_641a, FACTOR2) == 0xe220_a838_bf5c_9dde;
    assert Mul(0x3c6e_f372_0f2f_35e1, FACTOR1) == 0x2a94_fcbf_ccb4_3499 && Mul(0x2a94_fcba_9e2b_a360, FACTOR2) == 0x6e78_9e6a_7d48_5920;
  }
}
