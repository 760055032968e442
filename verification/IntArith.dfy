/** Multiples, quotients and remainders of integers. */
module IntArith {

  lemma MultipleAtLeast(k: int, m: int)
    requires m > 0
    ensures k >= 1 ==> k * m >= m
    ensures k <= -1 ==> k * m <= -m
  {
  }

  /** A remainder is the only value in range that differs by a multiple. */
  lemma ModIs(a: int, m: int, q: int, r: int)
    requires m > 0 && 0 <= r < m && a == q * m + r
    ensures a % m == r
  {
    var k := q - a / m;
    assert k * m == a % m - r;
    MultipleAtLeast(k, m);
  }

  lemma MulMonotone(d: int, a: int, b: int)
    requires a <= b && d >= 0
    ensures d * a <= d * b
  {
  }

  lemma DivMonotone(a: int, b: int, d: int)
    requires a <= b && d > 0
    ensures a / d <= b / d
  {
    var k := a / d - b / d;
    assert k * d == (a - b) - (a % d - b % d);
    MultipleAtLeast(k, d);
  }
}
