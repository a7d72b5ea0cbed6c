/** Multiplication and division with a variable divisor. */
module Arithmetic {

  lemma MulAtLeast(m: int, k: int)
    requires m > 0 && k >= 1
    ensures m * k >= m
  {}

  lemma MulOrder(m: int, i: int, j: int)
    requires m > 0 && i < j
    ensures m * i + m <= m * j
  {
    MulAtLeast(m, j - i);
    assert m * j == m * i + m * (j - i);
  }

  lemma DivModUnique(a: int, m: int, q: int, r: int)
    requires m > 0 && a == m * q + r && 0 <= r < m
    ensures a / m == q && a % m == r
  {
    var q', r' := a / m, a % m;
    assert a == m * q' + r';
    if q < q' {
      MulOrder(m, q, q');
      assert false;
    }
    if q' < q {
      MulOrder(m, q', q);
      assert false;
    }
  }

  /** A division guard decides exactly whether a product stays within a limit. */
  lemma DivisionGuard(limit: int, factor: int, other: int)
    requires limit >= 0 && factor > 0
    ensures other <= limit / factor <==> other * factor <= limit
  {
    var q := limit / factor;
    assert limit == factor * q + limit % factor;
    assert other * factor == factor * other;
    if other < q { MulOrder(factor, other, q); }
    if q < other { MulOrder(factor, q, other); }
  }

  lemma QuotientBounds(a: int, m: int)
    requires a >= 0 && m > 0
    ensures 0 <= a / m <= a
  {
    var q := a / m;
    assert a == m * q + a % m;
    if q < 0 {
      MulOrder(m, q, 0);
      assert false;
    }
    if q > 0 {
      MulAtLeast(q, m);
      assert m * q == q * m;
    }
  }

  lemma MulMonotone(a: int, b: int, c: int)
    requires a <= b && c >= 0
    ensures a * c <= b * c
  {
    assert b * c == a * c + (b - a) * c;
  }
}
