/** Signs and products of real numbers, one step at a time; each product is named by a parameter. */
module RealArith {

  lemma MulPos(x: real, y: real, p: real)
    requires x > 0.0 && y > 0.0 && p == x * y
    ensures p > 0.0
  {
  }

  lemma MulNeg(x: real, y: real, p: real)
    requires x < 0.0 && y < 0.0 && p == x * y
    ensures p > 0.0
  {
    MulPos(-x, -y, p);
  }

  /** A positive factor keeps the sign. */
  lemma MulSign(n: real, r: real, p: real)
    requires n > 0.0 && p == n * r
    ensures p > 0.0 <==> r > 0.0
    ensures p == 0.0 <==> r == 0.0
  {
    if r > 0.0 {
      MulPos(n, r, p);
    } else if r < 0.0 {
      MulPos(n, -r, -p);
    }
  }

  function Square(e: real): real {
    e * e
  }

  lemma ProductWithItself(e: real, q: real)
    requires q == e * e
    ensures e != 0.0 ==> q > 0.0
    ensures e == 0.0 ==> q == 0.0
  {
    if e > 0.0 {
      MulPos(e, e, q);
    } else if e < 0.0 {
      MulNeg(e, e, q);
    }
  }

  lemma SquareSign(e: real)
    ensures e != 0.0 ==> Square(e) > 0.0
    ensures e == 0.0 ==> Square(e) == 0.0
  {
    ProductWithItself(e, Square(e));
  }

  lemma SquareBound(c: real)
    ensures Square(c) > 1.0 <==> c > 1.0 || c < -1.0
    ensures Square(c) == 1.0 <==> c == 1.0 || c == -1.0
  {
    var p, m, d := c - 1.0, c + 1.0, Square(c) - 1.0;
    assert d == p * m;
    hide Square;
    if p > 0.0 {
      MulPos(p, m, d);
    } else if m < 0.0 {
      MulNeg(p, m, d);
    } else if p < 0.0 && m > 0.0 {
      MulPos(-p, m, -d);
    }
  }

  lemma DivMul(x: real, y: real)
    requires y != 0.0
    ensures x / y * y == x
  {
  }

  lemma DivIs(x: real, n: real, p: real)
    requires n > 0.0 && x == p * n
    ensures x / n == p
  {
  }

  /** A positive factor keeps the order. */
  lemma MulCompare(n: real, r: real, s: real, nr: real, ns: real)
    requires n > 0.0 && nr == n * r && ns == n * s
    ensures nr < ns <==> r < s
    ensures nr == ns <==> r == s
  {
    MulSign(n, s - r, ns - nr);
  }
}
