/** rtpstatsutil.h: WindowedCorrelationCoeffT over exact numbers. */
module Correlation {
  import opened RealArith
  import opened Windows

  type Point = (real, real)

  /** How many points there are, and the five sums over them. */
  datatype Sums = Sums(n: real, x: real, y: real, xy: real, xx: real, yy: real)

  /** What one point contributes. */
  function Parts(p: Point): Sums {
    Sums(1.0, p.0, p.1, p.0 * p.1, p.0 * p.0, p.1 * p.1)
  }

  function Add(s: Sums, t: Sums): Sums {
    Sums(s.n + t.n, s.x + t.x, s.y + t.y, s.xy + t.xy, s.xx + t.xx, s.yy + t.yy)
  }

  function Subtract(s: Sums, t: Sums): Sums {
    Sums(s.n - t.n, s.x - t.x, s.y - t.y, s.xy - t.xy, s.xx - t.xx, s.yy - t.yy)
  }

  function Plus(s: Sums, p: Point): Sums {
    Add(s, Parts(p))
  }

  function Minus(s: Sums, p: Point): Sums {
    Subtract(s, Parts(p))
  }

  lemma PlusMinus(s: Sums, p: Point, q: Point)
    ensures Minus(Plus(s, p), q) == Plus(Minus(s, q), p)
  {
  }

  function SumsOf(ps: seq<Point>): (s: Sums)
    ensures s.n == |ps| as real
  {
    if ps == [] then Sums(0.0, 0.0, 0.0, 0.0, 0.0, 0.0)
    else Plus(SumsOf(ps[..|ps| - 1]), ps[|ps| - 1])
  }

  lemma SumsExtend(ps: seq<Point>, p: Point)
    ensures SumsOf(ps + [p]) == Plus(SumsOf(ps), p)
  {
    assert (ps + [p])[..|ps|] == ps;
  }

  lemma {:induction false} SumsDropFirst(ps: seq<Point>)
    requires ps != []
    ensures SumsOf(ps[1..]) == Minus(SumsOf(ps), ps[0])
    decreases |ps|
  {
    var n := |ps| - 1;
    if n > 0 {
      hide Plus, Minus;
      SumsDropFirst(ps[..n]);
      assert ps[1..] == ps[..n][1..] + [ps[n]];
      SumsExtend(ps[..n][1..], ps[n]);
      PlusMinus(SumsOf(ps[..n]), ps[n], ps[0]);
    }
  }

  /** Sliding a window: subtract what falls out of a full one, add what comes in. */
  lemma SumsSlide(ps: seq<Point>, p: Point, size: nat)
    requires size > 0 && |ps| <= size
    ensures SumsOf(LastN(ps + [p], size))
         == Plus(if |ps| == size then Minus(SumsOf(ps), ps[0]) else SumsOf(ps), p)
  {
    hide SumsOf, Plus, Minus;
    if |ps| == size {
      SumsDropFirst(ps);
      assert LastN(ps + [p], size) == ps[1..] + [p];
      SumsExtend(ps[1..], p);
    } else {
      SumsExtend(ps, p);
    }
  }

  // ---------- The two formulas ----------

  /** The first denominator factor. */
  function SpreadX(s: Sums): real {
    s.n * s.xx - s.x * s.x
  }

  function SpreadY(s: Sums): real {
    s.n * s.yy - s.y * s.y
  }

  function Numerator(s: Sums): real {
    s.n * s.xy - s.x * s.y
  }

  /** What the square root is taken of. */
  function Radicand(s: Sums): real {
    SpreadX(s) * SpreadY(s)
  }

  function Slope(s: Sums): real {
    if SpreadX(s) != 0.0 then Numerator(s) / SpreadX(s) else 0.0
  }

  /** The intercept that belongs to the slope. */
  function Intercept(s: Sums): real
    requires s.n != 0.0
  {
    (s.y - Slope(s) * s.x) / s.n
  }

  /** The square root the C library returns for a non-negative argument. */
  predicate IsSqrt(root: real, d: real) {
    root >= 0.0 && root * root == d
  }

  // ---------- Residuals ----------

  /** How far the point lies above the line y = a*x + b. */
  function Above(p: Point, a: real, b: real): real {
    p.1 - a * p.0 - b
  }

  /** The squared vertical distance from the points to the line. */
  function Residual(ps: seq<Point>, a: real, b: real): real {
    if ps == [] then 0.0
    else
      var e := Above(ps[|ps| - 1], a, b);
      Residual(ps[..|ps| - 1], a, b) + Square(e)
  }

  predicate On(p: Point, a: real, b: real) {
    p.1 == a * p.0 + b
  }

  lemma OnIsNotAbove(p: Point, a: real, b: real)
    ensures On(p, a, b) <==> Above(p, a, b) == 0.0
  {
  }

  ghost predicate OnLine(ps: seq<Point>, a: real, b: real) {
    forall i | 0 <= i < |ps| :: On(ps[i], a, b)
  }

  lemma OnLineExtend(ps: seq<Point>, a: real, b: real)
    requires ps != []
    ensures OnLine(ps, a, b) <==> OnLine(ps[..|ps| - 1], a, b) && On(ps[|ps| - 1], a, b)
  {
    hide On;
    var n := |ps| - 1;
    if OnLine(ps[..n], a, b) && On(ps[n], a, b) {
      forall i | 0 <= i < |ps| ensures On(ps[i], a, b) {
        if i < n {
          assert ps[..n][i] == ps[i];
        }
      }
    }
  }

  lemma AddedSquare(r: real, e: real)
    requires r >= 0.0
    ensures r + Square(e) >= 0.0
    ensures r + Square(e) == 0.0 <==> r == 0.0 && e == 0.0
  {
    hide Square;
    SquareSign(e);
  }

  lemma {:induction false} ResidualZero(ps: seq<Point>, a: real, b: real)
    ensures Residual(ps, a, b) >= 0.0
    ensures Residual(ps, a, b) == 0.0 <==> OnLine(ps, a, b)
    decreases |ps|
  {
    if ps != [] {
      hide On, Above, Square;
      var n := |ps| - 1;
      ResidualZero(ps[..n], a, b);
      AddedSquare(Residual(ps[..n], a, b), Above(ps[n], a, b));
      OnIsNotAbove(ps[n], a, b);
      OnLineExtend(ps, a, b);
    }
  }

  /** The residual as the quadratic in a and b whose coefficients are the sums. */
  ghost predicate IsQuadratic(r: real, s: Sums, a: real, b: real) {
    r == s.yy + a * a * s.xx + b * b * s.n - 2.0 * a * s.xy - 2.0 * b * s.y + 2.0 * a * b * s.x
  }

  lemma AddSquare(r: real, s: Sums, p: Point, a: real, b: real)
    requires IsQuadratic(r, s, a, b)
    ensures var e := Above(p, a, b);
            IsQuadratic(r + Square(e), Plus(s, p), a, b)
  {
  }

  lemma {:induction false} ResidualIsQuadratic(ps: seq<Point>, a: real, b: real)
    ensures IsQuadratic(Residual(ps, a, b), SumsOf(ps), a, b)
    decreases |ps|
  {
    if ps != [] {
      var k := |ps| - 1;
      hide IsQuadratic, Plus, Above, Square;
      ResidualIsQuadratic(ps[..k], a, b);
      AddSquare(Residual(ps[..k], a, b), SumsOf(ps[..k]), ps[k], a, b);
    }
  }

  lemma SquareCompleted(r: real, n: real, x: real, y: real, xx: real, xy: real, yy: real, a: real, b: real,
                        u: real, uu: real, dx: real, num: real, dy: real)
    requires r == yy + a * a * xx + b * b * n - 2.0 * a * xy - 2.0 * b * y + 2.0 * a * b * x
    requires u == n * b + a * x - y && uu == u * u
    requires dx == n * xx - x * x && num == n * xy - x * y && dy == n * yy - y * y
    ensures n * r == uu + (a * a * dx - 2.0 * a * num) + dy
  {
  }

  /** Completing the square in b: what is left is a parabola in a. */
  lemma CompleteSquare(r: real, s: Sums, a: real, b: real, u: real, dx: real, num: real, dy: real)
    requires IsQuadratic(r, s, a, b)
    requires u == s.n * b + a * s.x - s.y
    requires dx == SpreadX(s) && num == Numerator(s) && dy == SpreadY(s)
    ensures s.n * r == Square(u) + (a * a * dx - 2.0 * a * num) + dy
  {
    var uu := Square(u);
    SquareCompleted(r, s.n, s.x, s.y, s.xx, s.xy, s.yy, a, b, u, uu, dx, num, dy);
  }

  // ---------- Cauchy-Schwarz ----------

  lemma FlatLine(n: real, r: real, u: real, dy: real)
    requires n > 0.0 && r >= 0.0
    requires n * r == Square(u) + dy
    ensures u == 0.0 ==> dy >= 0.0 && (dy == 0.0 <==> r == 0.0)
    ensures r == 0.0 ==> dy <= 0.0
  {
    hide Square;
    MulSign(n, r, n * r);
    SquareSign(u);
  }

  lemma FlatResidual(ps: seq<Point>, c: real, r: real, u: real)
    requires r == Residual(ps, 0.0, c)
    requires u == |ps| as real * c - SumsOf(ps).y
    ensures |ps| as real * r == Square(u) + SpreadY(SumsOf(ps))
  {
    hide *;
    var s := SumsOf(ps);
    ResidualIsQuadratic(ps, 0.0, c);
    CompleteSquare(r, s, 0.0, c, u, SpreadX(s), Numerator(s), SpreadY(s));
  }

  ghost predicate SameY(ps: seq<Point>) {
    forall i, j | 0 <= i < |ps| && 0 <= j < |ps| :: ps[i].1 == ps[j].1
  }

  ghost predicate SameX(ps: seq<Point>) {
    forall i, j | 0 <= i < |ps| && 0 <= j < |ps| :: ps[i].0 == ps[j].0
  }

  /** The ys are all equal exactly when the points lie on some horizontal line, the one through the first. */
  lemma SameYIsFlat(ps: seq<Point>, c: real)
    requires ps != []
    ensures OnLine(ps, 0.0, c) ==> SameY(ps)
    ensures SameY(ps) ==> OnLine(ps, 0.0, ps[0].1)
  {
    if OnLine(ps, 0.0, c) {
      forall i | 0 <= i < |ps| ensures ps[i].1 == c {
        assert On(ps[i], 0.0, c);
      }
    }
  }

  /** The second denominator factor is never negative, and zero exactly when all ys are equal. */
  lemma SpreadYSign(ps: seq<Point>)
    ensures SpreadY(SumsOf(ps)) >= 0.0
    ensures SpreadY(SumsOf(ps)) == 0.0 <==> SameY(ps)
  {
    hide SpreadY, Residual, SameY, OnLine;
    if ps != [] {
      hide *;
      var n, y, dy := |ps| as real, SumsOf(ps).y, SpreadY(SumsOf(ps));
      var mean, c := y / n, ps[0].1;
      DivMul(y, n);
      FlatResidual(ps, mean, Residual(ps, 0.0, mean), n * mean - y);
      ResidualZero(ps, 0.0, mean);
      FlatLine(n, Residual(ps, 0.0, mean), n * mean - y, dy);
      FlatResidual(ps, c, Residual(ps, 0.0, c), n * c - y);
      ResidualZero(ps, 0.0, c);
      FlatLine(n, Residual(ps, 0.0, c), n * c - y, dy);
      SameYIsFlat(ps, mean);
    } else {
      NoSpread(ps);
    }
  }

  lemma NoSpread(ps: seq<Point>)
    requires ps == []
    ensures SpreadY(SumsOf(ps)) == 0.0 && SameY(ps)
  {
  }

  function Swapped(ps: seq<Point>): (qs: seq<Point>)
    ensures |qs| == |ps|
  {
    seq(|ps|, i requires 0 <= i < |ps| => (ps[i].1, ps[i].0))
  }

  function Flip(s: Sums): Sums {
    Sums(s.n, s.y, s.x, s.xy, s.yy, s.xx)
  }

  lemma FlipPlus(s: Sums, p: Point)
    ensures Plus(Flip(s), (p.1, p.0)) == Flip(Plus(s, p))
    ensures SpreadY(Flip(s)) == SpreadX(s)
  {
  }

  lemma {:induction false} SwappedSums(ps: seq<Point>)
    ensures SumsOf(Swapped(ps)) == Flip(SumsOf(ps))
    decreases |ps|
  {
    if ps != [] {
      hide Plus, Flip;
      var n := |ps| - 1;
      SwappedSums(ps[..n]);
      assert Swapped(ps)[..n] == Swapped(ps[..n]);
      FlipPlus(SumsOf(ps[..n]), ps[n]);
    }
  }

  lemma SwappedSame(ps: seq<Point>)
    ensures SameY(Swapped(ps)) <==> SameX(ps)
  {
    var qs := Swapped(ps);
    if SameY(qs) {
      forall i, j | 0 <= i < |ps| && 0 <= j < |ps| ensures ps[i].0 == ps[j].0 {
        assert qs[i].1 == qs[j].1;
      }
    }
  }

  /** The first denominator factor is never negative, and zero exactly when all xs are equal. */
  lemma SpreadXSign(ps: seq<Point>)
    ensures SpreadX(SumsOf(ps)) >= 0.0
    ensures SpreadX(SumsOf(ps)) == 0.0 <==> SameX(ps)
  {
    hide *;
    SwappedSums(ps);
    SwappedSame(ps);
    FlipPlus(SumsOf(ps), (0.0, 0.0));
    SpreadYSign(Swapped(ps));
  }

  /** The sums of points whose xs are all c. */
  ghost predicate SumsAtX(s: Sums, c: real) {
    s.x == s.n * c && s.xy == c * s.y
  }

  lemma SumsAtXStep(s: Sums, p: Point, c: real)
    requires SumsAtX(s, c) && p.0 == c
    ensures SumsAtX(Plus(s, p), c)
  {
  }

  lemma {:induction false} ConstantX(ps: seq<Point>, c: real)
    requires forall i | 0 <= i < |ps| :: ps[i].0 == c
    ensures SumsAtX(SumsOf(ps), c)
    decreases |ps|
  {
    if ps != [] {
      var k := |ps| - 1;
      hide Plus, SumsAtX;
      ConstantX(ps[..k], c);
      SumsAtXStep(SumsOf(ps[..k]), ps[k], c);
    }
  }

  lemma NumeratorVanishes(ps: seq<Point>)
    requires ps != [] && SameX(ps)
    ensures Numerator(SumsOf(ps)) == 0.0
  {
    hide *;
    SameXIsConstant(ps);
    var c := ps[0].0;
    ConstantX(ps, c);
    Cancel(SumsOf(ps), c);
  }

  lemma SameXIsConstant(ps: seq<Point>)
    requires ps != [] && SameX(ps)
    ensures forall i | 0 <= i < |ps| :: ps[i].0 == ps[0].0
  {
  }

  lemma Cancel(s: Sums, c: real)
    requires SumsAtX(s, c)
    ensures Numerator(s) == 0.0
  {
    assert s.n * (c * s.y) == (s.n * c) * s.y;
  }

  /** The regression line's residual, scaled, is the gap in the Cauchy-Schwarz inequality. */
  lemma ResidualOfSlope(n: real, r: real, a: real, dx: real, num: real, dy: real)
    requires a * dx == num
    requires n * r == (a * a * dx - 2.0 * a * num) + dy
    ensures dx * (n * r) == dx * dy - num * num
  {
    assert a * a * dx == a * num;
    assert n * r == dy - a * num;
    assert dx * (dy - a * num) == dx * dy - (a * dx) * num;
  }

  /** The residual of the line through the slope and its intercept. */
  lemma BestResidual(ps: seq<Point>, s: Sums, r: real)
    requires ps != [] && s == SumsOf(ps) && SpreadX(s) != 0.0
    requires r == Residual(ps, Slope(s), Intercept(s))
    ensures Slope(s) * SpreadX(s) == Numerator(s)
    ensures var a := Slope(s);
            s.n * r == (a * a * SpreadX(s) - 2.0 * a * Numerator(s)) + SpreadY(s)
  {
    hide SumsOf, IsQuadratic, SpreadX, SpreadY, Numerator, Residual;
    var a, b := Slope(s), Intercept(s);
    DivMul(Numerator(s), SpreadX(s));
    DivMul(s.y - a * s.x, s.n);
    ResidualIsQuadratic(ps, a, b);
    CompleteSquare(r, s, a, b, 0.0, SpreadX(s), Numerator(s), SpreadY(s));
  }

  /**
   * For any points: both denominator factors are non-negative and the numerator squared never
   * exceeds their product; it reaches the product exactly when the points lie on one line.
   */
  lemma CauchySchwarz(ps: seq<Point>)
    requires ps != []
    ensures var s := SumsOf(ps);
            && SpreadX(s) >= 0.0 && SpreadY(s) >= 0.0
            && Numerator(s) * Numerator(s) <= SpreadX(s) * SpreadY(s)
            && (SpreadX(s) != 0.0 ==>
                  (Numerator(s) * Numerator(s) == SpreadX(s) * SpreadY(s) <==> OnLine(ps, Slope(s), Intercept(s))))
  {
    hide *;
    SpreadXSign(ps);
    SpreadYSign(ps);
    var s := SumsOf(ps);
    var dx, dy, num := SpreadX(s), SpreadY(s), Numerator(s);
    if dx != 0.0 {
      var r := Residual(ps, Slope(s), Intercept(s));
      BestResidual(ps, s, r);
      ResidualOfSlope(s.n, r, Slope(s), dx, num, dy);
      ResidualZero(ps, Slope(s), Intercept(s));
      MulSign(s.n, r, s.n * r);
      MulSign(dx, s.n * r, dx * (s.n * r));
    } else {
      NumeratorVanishes(ps);
      assert num * num == 0.0;
    }
  }

  // ---------- What the two queries mean ----------

  lemma Ratio(c: real, num: real, root: real, d: real, kd: real)
    requires d > 0.0 && root * root == d && num == c * root && num * num <= d
    requires kd == num * num
    ensures -1.0 <= c <= 1.0
    ensures (c == 1.0 || c == -1.0) <==> kd == d
  {
    assert kd == d * Square(c) by {
      assert (c * root) * (c * root) == (root * root) * (c * c);
    }
    hide Square;
    SquareBound(c);
    MulCompare(d, Square(c), 1.0, kd, d);
  }

  /** With a positive denominator the coefficient is in [-1, 1], and at an end exactly when the bound is met. */
  lemma CoefficientInRange(num: real, d: real, root: real)
    requires d > 0.0 && num * num <= d && IsSqrt(root, d)
    ensures root > 0.0 && -1.0 <= num / root <= 1.0
    ensures (num / root == 1.0 || num / root == -1.0) <==> num * num == d
  {
    SquareSign(root);
    DivMul(num, root);
    Ratio(num / root, num, root, d, num * num);
  }

  lemma SlopeGap(a: real, a0: real, dx: real, num: real)
    requires a0 * dx == num
    ensures a * a * dx - 2.0 * a * num - (a0 * a0 * dx - 2.0 * a0 * num) == dx * Square(a - a0)
  {
    assert a * num == a * (a0 * dx);
    assert a0 * num == a0 * (a0 * dx);
  }

  lemma Nearer(n: real, r: real, r0: real, u: real, a: real, a0: real, dx: real, num: real, dy: real)
    requires n > 0.0 && dx > 0.0 && a0 * dx == num
    requires n * r == Square(u) + (a * a * dx - 2.0 * a * num) + dy
    requires n * r0 == (a0 * a0 * dx - 2.0 * a0 * num) + dy
    ensures r0 <= r && (r0 == r ==> a == a0)
  {
    SlopeGap(a, a0, dx, num);
    FartherOff(n, r, r0, u, a - a0, dx, dx * Square(a - a0));
  }

  lemma FartherOff(n: real, r: real, r0: real, u: real, e: real, dx: real, extra: real)
    requires n > 0.0 && dx > 0.0 && extra == dx * Square(e)
    requires n * r - n * r0 == Square(u) + extra
    ensures r0 <= r && (r0 == r ==> e == 0.0)
  {
    hide Square;
    SquareSign(u);
    SquareSign(e);
    MulSign(dx, Square(e), extra);
    MulCompare(n, r0, r, n * r0, n * r);
  }

  /** The slope is that of the least-squares line: no other line is as close to the window with another slope. */
  lemma SlopeIsLeastSquares(ps: seq<Point>, a: real, b: real)
    requires ps != [] && !SameX(ps)
    ensures var s := SumsOf(ps);
            && SpreadX(s) != 0.0
            && Residual(ps, Slope(s), Intercept(s)) <= Residual(ps, a, b)
            && (Residual(ps, Slope(s), Intercept(s)) == Residual(ps, a, b) ==> a == Slope(s))
  {
    hide *;
    SpreadXSign(ps);
    var s := SumsOf(ps);
    var r, r0 := Residual(ps, a, b), Residual(ps, Slope(s), Intercept(s));
    BestResidual(ps, s, r0);
    ResidualIsQuadratic(ps, a, b);
    var u := s.n * b + a * s.x - s.y;
    CompleteSquare(r, s, a, b, u, SpreadX(s), Numerator(s), SpreadY(s));
    Nearer(s.n, r, r0, u, a, Slope(s), SpreadX(s), Numerator(s), SpreadY(s));
  }

  /** Points on a line, with at least two different xs, determine the slope exactly. */
  lemma SlopeOfLine(ps: seq<Point>, a: real, b: real)
    requires ps != [] && !SameX(ps) && OnLine(ps, a, b)
    ensures Slope(SumsOf(ps)) == a
  {
    var s := SumsOf(ps);
    SlopeIsLeastSquares(ps, a, b);
    ResidualZero(ps, a, b);
    ResidualZero(ps, Slope(s), Intercept(s));
  }

  /** The denominator is never negative: its square root is defined. */
  lemma Denominator(dx: real, dy: real)
    requires dx >= 0.0 && dy >= 0.0
    ensures dx * dy >= 0.0
    ensures dx * dy == 0.0 <==> dx == 0.0 || dy == 0.0
  {
    if dx > 0.0 {
      MulSign(dx, dy, dx * dy);
    }
  }

  function Coefficient(s: Sums, root: real): real {
    if Radicand(s) != 0.0 && root != 0.0 then Numerator(s) / root else 0.0
  }

  /** The coefficient of a window of two or more points, given the root of its denominator. */
  ghost predicate IsCoefficient(ps: seq<Point>, root: real, r: real)
    requires ps != []
  {
    && -1.0 <= r <= 1.0
    && (SameX(ps) || SameY(ps) ==> r == 0.0)
    && (!SameX(ps) && !SameY(ps) ==>
          && r * root == Numerator(SumsOf(ps))
          && ((r == 1.0 || r == -1.0) <==> OnLine(ps, Slope(SumsOf(ps)), Intercept(SumsOf(ps)))))
  }

  lemma CoefficientMeaning(ps: seq<Point>, root: real)
    requires ps != []
    requires IsSqrt(root, Radicand(SumsOf(ps)))
    ensures Radicand(SumsOf(ps)) >= 0.0
    ensures Radicand(SumsOf(ps)) != 0.0 ==> root > 0.0
    ensures IsCoefficient(ps, root, Coefficient(SumsOf(ps), root))
  {
    hide SumsOf, SpreadX, SpreadY, Numerator, SameX, SameY, OnLine, Slope, Intercept;
    var s := SumsOf(ps);
    CauchySchwarz(ps);
    SpreadXSign(ps);
    SpreadYSign(ps);
    Denominator(SpreadX(s), SpreadY(s));
    var d := Radicand(s);
    if d != 0.0 {
      CoefficientInRange(Numerator(s), d, root);
      DivMul(Numerator(s), root);
    }
  }

  // ---------- Pearson's definition ----------

  function Xs(ps: seq<Point>): (xs: seq<real>)
    ensures |xs| == |ps|
  {
    seq(|ps|, i requires 0 <= i < |ps| => ps[i].0)
  }

  function Ys(ps: seq<Point>): (ys: seq<real>)
    ensures |ys| == |ps|
  {
    seq(|ps|, i requires 0 <= i < |ps| => ps[i].1)
  }

  function Total(us: seq<real>): real {
    if us == [] then 0.0 else Total(us[..|us| - 1]) + us[|us| - 1]
  }

  function Mean(us: seq<real>): real
    requires us != []
  {
    Total(us) / |us| as real
  }

  function Times(u: real, v: real): real {
    u * v
  }

  /** The sum of the products of the deviations of us from mu and of vs from mv. */
  function CoDeviation(us: seq<real>, vs: seq<real>, mu: real, mv: real): real
    requires |us| == |vs|
  {
    if us == [] then 0.0
    else
      var n := |us| - 1;
      CoDeviation(us[..n], vs[..n], mu, mv) + Times(us[n] - mu, vs[n] - mv)
  }

  /**
   * r is the product-moment correlation coefficient: its square is the squared sum of the products of
   * the deviations from the means over the product of the two sums of squared deviations, and it has
   * the sign of the former. When a side is constant this leaves 0 only.
   */
  ghost predicate IsPearson(us: seq<real>, vs: seq<real>, r: real)
    requires |us| == |vs| > 0
  {
    var mu, mv := Mean(us), Mean(vs);
    var both, ofUs, ofVs := CoDeviation(us, vs, mu, mv), CoDeviation(us, us, mu, mu), CoDeviation(vs, vs, mv, mv);
    && r * r * (ofUs * ofVs) == both * both
    && (r > 0.0 <==> both > 0.0)
    && (r < 0.0 <==> both < 0.0)
  }

  /** The sum of the products of us and vs. */
  function Dot(us: seq<real>, vs: seq<real>): real
    requires |us| == |vs|
  {
    if us == [] then 0.0
    else
      var n := |us| - 1;
      Dot(us[..n], vs[..n]) + Times(us[n], vs[n])
  }

  lemma {:induction false} SumsAreDots(ps: seq<Point>)
    ensures SumsOf(ps) == Sums(|ps| as real, Total(Xs(ps)), Total(Ys(ps)),
                               Dot(Xs(ps), Ys(ps)), Dot(Xs(ps), Xs(ps)), Dot(Ys(ps), Ys(ps)))
    decreases |ps|
  {
    if ps != [] {
      var k := |ps| - 1;
      SumsAreDots(ps[..k]);
      assert Xs(ps)[..k] == Xs(ps[..k]) && Ys(ps)[..k] == Ys(ps[..k]);
    }
  }

  /** The co-deviation c, from its dot product and totals. */
  ghost predicate Expands(c: real, dot: real, tu: real, tv: real, n: real, mu: real, mv: real) {
    c == dot - mv * tu - mu * tv + n * (mu * mv)
  }

  lemma ExpandsStep(c: real, dot: real, tu: real, tv: real, n: real, mu: real, mv: real, u: real, v: real)
    requires Expands(c, dot, tu, tv, n, mu, mv)
    ensures Expands(c + Times(u - mu, v - mv), dot + Times(u, v), tu + u, tv + v, n + 1.0, mu, mv)
  {
  }

  lemma {:induction false} CoDeviationExpands(us: seq<real>, vs: seq<real>, mu: real, mv: real)
    requires |us| == |vs|
    ensures Expands(CoDeviation(us, vs, mu, mv), Dot(us, vs), Total(us), Total(vs), |us| as real, mu, mv)
    decreases |us|
  {
    if us != [] {
      hide Expands, Times;
      var k := |us| - 1;
      CoDeviationExpands(us[..k], vs[..k], mu, mv);
      ExpandsStep(CoDeviation(us[..k], vs[..k], mu, mv), Dot(us[..k], vs[..k]), Total(us[..k]), Total(vs[..k]),
                  k as real, mu, mv, us[k], vs[k]);
    }
  }

  lemma AboutMeans(c: real, dot: real, tu: real, tv: real, n: real, mu: real, mv: real)
    requires Expands(c, dot, tu, tv, n, mu, mv) && n * mu == tu && n * mv == tv
    ensures n * c == n * dot - tu * tv
  {
    assert n * (mv * tu) == tv * tu;
    assert n * (mu * tv) == tu * tv;
    assert n * (n * (mu * mv)) == tu * tv;
  }

  /** About the means, n times the co-deviation is n times the dot product less the product of the totals. */
  lemma ScaledCoDeviation(us: seq<real>, vs: seq<real>)
    requires |us| == |vs| > 0
    ensures |us| as real * CoDeviation(us, vs, Mean(us), Mean(vs)) == |us| as real * Dot(us, vs) - Total(us) * Total(vs)
  {
    hide Total, Dot, CoDeviation, Expands;
    var n := |us| as real;
    DivMul(Total(us), n);
    DivMul(Total(vs), n);
    CoDeviationExpands(us, vs, Mean(us), Mean(vs));
    AboutMeans(CoDeviation(us, vs, Mean(us), Mean(vs)), Dot(us, vs), Total(us), Total(vs), n, Mean(us), Mean(vs));
  }

  /** The products of the two formulas, scaled by n. */
  lemma FormulasAreCoDeviations(ps: seq<Point>)
    requires ps != []
    ensures var us, vs, n, s := Xs(ps), Ys(ps), |ps| as real, SumsOf(ps);
            && Numerator(s) == n * CoDeviation(us, vs, Mean(us), Mean(vs))
            && SpreadX(s) == n * CoDeviation(us, us, Mean(us), Mean(us))
            && SpreadY(s) == n * CoDeviation(vs, vs, Mean(vs), Mean(vs))
  {
    hide SumsOf, Total, Dot, CoDeviation, Mean, Xs, Ys;
    SumsAreDots(ps);
    ScaledCoDeviation(Xs(ps), Ys(ps));
    ScaledCoDeviation(Xs(ps), Xs(ps));
    ScaledCoDeviation(Ys(ps), Ys(ps));
  }

  lemma PearsonFromRoot(n: real, r: real, root: real, num: real, dx: real, dy: real, c: real, ofUs: real, ofVs: real)
    requires n > 0.0 && root > 0.0 && root * root == dx * dy && r * root == num
    requires num == n * c && dx == n * ofUs && dy == n * ofVs
    ensures r * r * (ofUs * ofVs) == c * c
    ensures (r > 0.0 <==> c > 0.0) && (r < 0.0 <==> c < 0.0)
  {
    ScaledSquares(n, r, root, c, ofUs, ofVs);
    MulSign(root, r, num);
    MulSign(n, c, num);
  }

  lemma ScaledSquares(n: real, r: real, root: real, c: real, ofUs: real, ofVs: real)
    requires n > 0.0 && root * root == (n * ofUs) * (n * ofVs) && r * root == n * c
    ensures r * r * (ofUs * ofVs) == c * c
  {
    var nn, left, right := n * n, r * r * (ofUs * ofVs), c * c;
    assert (r * root) * (r * root) == (r * r) * (root * root);
    assert (n * c) * (n * c) == nn * right;
    assert (n * ofUs) * (n * ofVs) == nn * (ofUs * ofVs);
    assert (r * r) * (nn * (ofUs * ofVs)) == nn * left;
    MulPos(n, n, nn);
    MulCompare(nn, left, right, nn * left, nn * right);
  }

  /** For any window of points and any root of the denominator the formula gives the correlation coefficient. */
  lemma CoefficientIsPearson(ps: seq<Point>, root: real)
    requires ps != [] && IsSqrt(root, Radicand(SumsOf(ps)))
    ensures IsPearson(Xs(ps), Ys(ps), Coefficient(SumsOf(ps), root))
  {
    hide SumsOf, Total, CoDeviation, Mean, Xs, Ys, SpreadX, SpreadY, Numerator, SameX, SameY;
    var us, vs, n, s := Xs(ps), Ys(ps), |ps| as real, SumsOf(ps);
    var mu, mv := Mean(us), Mean(vs);
    var c, ofUs, ofVs := CoDeviation(us, vs, mu, mv), CoDeviation(us, us, mu, mu), CoDeviation(vs, vs, mv, mv);
    FormulasAreCoDeviations(ps);
    if SpreadX(s) * SpreadY(s) != 0.0 {
      SquareSign(root);
      DivMul(Numerator(s), root);
      PearsonFromRoot(n, Numerator(s) / root, root, Numerator(s), SpreadX(s), SpreadY(s), c, ofUs, ofVs);
    } else {
      NoCoDeviation(ps, n, c, ofUs, ofVs);
    }
  }

  lemma NoCoDeviation(ps: seq<Point>, n: real, c: real, ofUs: real, ofVs: real)
    requires ps != [] && n > 0.0 && Numerator(SumsOf(ps)) == n * c
    requires SpreadX(SumsOf(ps)) == n * ofUs && SpreadY(SumsOf(ps)) == n * ofVs
    requires SpreadX(SumsOf(ps)) * SpreadY(SumsOf(ps)) == 0.0
    ensures c == 0.0 && ofUs * ofVs == 0.0
  {
    hide *;
    var num, dx, dy := Numerator(SumsOf(ps)), SpreadX(SumsOf(ps)), SpreadY(SumsOf(ps));
    CauchySchwarz(ps);
    ProductWithItself(num, num * num);
    Denominator(dx, dy);
    MulSign(n, c, num);
    MulSign(n, ofUs, dx);
    MulSign(n, ofVs, dy);
  }

  /** What is reported for a window: 0 for no point, 1 for one, and else the correlation coefficient. */
  ghost predicate IsCorrelation(ps: seq<Point>, root: real, r: real) {
    && (|ps| == 0 ==> r == 0.0)
    && (|ps| == 1 ==> r == 1.0)
    && (|ps| >= 2 ==> IsPearson(Xs(ps), Ys(ps), r) && IsCoefficient(ps, root, r))
  }

  lemma FormulaCorrelates(ps: seq<Point>, root: real)
    requires |ps| >= 2 && IsSqrt(root, Radicand(SumsOf(ps)))
    ensures IsCorrelation(ps, root, Coefficient(SumsOf(ps), root))
  {
    hide Coefficient, IsPearson, IsCoefficient;
    CoefficientMeaning(ps, root);
    CoefficientIsPearson(ps, root);
  }

  lemma FewPoints(ps: seq<Point>, root: real)
    ensures |ps| == 0 ==> IsCorrelation(ps, root, 0.0)
    ensures |ps| == 1 ==> IsCorrelation(ps, root, 1.0)
  {
  }

  /** The description has one answer. */
  lemma PearsonIsUnique(us: seq<real>, vs: seq<real>, r: real, t: real)
    requires |us| == |vs| > 0 && IsPearson(us, vs, r) && IsPearson(us, vs, t)
    ensures r == t
  {
    var mu, mv := Mean(us), Mean(vs);
    hide CoDeviation, Mean;
    SameSquareSameSign(r, t, CoDeviation(us, us, mu, mu) * CoDeviation(vs, vs, mv, mv), CoDeviation(us, vs, mu, mv));
  }

  lemma SameSquareSameSign(r: real, t: real, d: real, c: real)
    requires r * r * d == c * c && t * t * d == c * c
    requires (r > 0.0 <==> c > 0.0) && (r < 0.0 <==> c < 0.0) && (t > 0.0 <==> c > 0.0) && (t < 0.0 <==> c < 0.0)
    ensures r == t
  {
    if c != 0.0 {
      SquareSign(c);
      assert d != 0.0 && (r * r - t * t) * d == 0.0;
      assert r * r - t * t == (r - t) * (r + t);
      assert (r - t) * (r + t) == 0.0;
    }
  }

  // ---------- The windowed estimator ----------

  /** What one pair more does to the window, to the slots that hold it, and to its sums. */
  lemma WindowMoves(pushed: seq<Point>, slots: seq<Point>, next: nat, size: nat, p: Point)
    requires |slots| == size && Ring(slots, next, LastN(pushed, size))
    ensures next < size
    ensures var w, w' := LastN(pushed, size), LastN(pushed + [p], size);
            && (|w| < size ==> next == |w|)
            && |w'| == (if |w| < size then |w| + 1 else size)
            && Ring(slots[next := p], Advance(next, size), w')
            && SumsOf(w') == Plus(if |w| < size then SumsOf(w) else Subtract(SumsOf(w), Parts(slots[next])), p)
  {
    var w := LastN(pushed, size);
    RingPush(slots, next, w, p);
    LastNPush(pushed, p, size);
    SumsSlide(w, p, size);
    assert |w| == size ==> Minus(SumsOf(w), w[0]) == Subtract(SumsOf(w), Parts(slots[next]));
    hide SumsOf, LastN, Advance, Parts, Plus, Minus, Subtract;
  }

  class WindowedCorrelationCoeff {
    const mWindowSize: nat
    const mXs: array<real>
    const mYs: array<real>
    const mXYs: array<real>
    const mXSquares: array<real>
    const mYSquares: array<real>
    var mSumOfXs: real
    var mSumOfYs: real
    var mSumOfXYs: real
    var mSumOfXSquares: real
    var mSumOfYSquares: real
    var mNumEntries: nat
    var mNextEntry: nat
    ghost var Pushed: seq<Point>  // everything pushed since the last reset
    ghost var Slots: seq<Point>   // the pair each array slot was last given

    ghost function Repr(): set<object> {
      {this, mXs, mYs, mXYs, mXSquares, mYSquares}
    }

    ghost function Window(): seq<Point>
      reads this
    {
      LastN(Pushed, mWindowSize)
    }

    ghost predicate Arrays() {
      && mXs != mYs && mXs != mXYs && mXs != mXSquares && mXs != mYSquares
      && mYs != mXYs && mYs != mXSquares && mYs != mYSquares
      && mXYs != mXSquares && mXYs != mYSquares && mXSquares != mYSquares
      && mXs.Length == mYs.Length == mXYs.Length == mXSquares.Length == mYSquares.Length == mWindowSize
    }

    /** What slot i of the five arrays holds. */
    ghost function Slot(i: nat): Sums
      requires Arrays() && i < mWindowSize
      reads mXs, mYs, mXYs, mXSquares, mYSquares
    {
      Sums(1.0, mXs[i], mYs[i], mXYs[i], mXSquares[i], mYSquares[i])
    }

    /** The first n slots hold what these points contribute. */
    ghost predicate Holds(points: seq<Point>, n: nat)
      requires Arrays() && n <= mWindowSize == |points|
      reads mXs, mYs, mXYs, mXSquares, mYSquares
    {
      forall i | 0 <= i < n :: Slot(i) == Parts(points[i])
    }

    ghost predicate Valid()
      reads Repr()
    {
      && mWindowSize > 0 && Arrays()
      && |Slots| == mWindowSize
      && mNumEntries == |Window()|
      && Ring(Slots, mNextEntry, Window())
      && Holds(Slots, mNumEntries)
      && Totals() == SumsOf(Window())
    }

    function Totals(): Sums
      reads this
    {
      Sums(mNumEntries as real, mSumOfXs, mSumOfYs, mSumOfXYs, mSumOfXSquares, mSumOfYSquares)
    }

    constructor (windowSize: nat)
      requires windowSize > 0
      ensures Valid() && fresh(Repr()) && mWindowSize == windowSize && Pushed == []
    {
      mWindowSize := windowSize;
      mXs := new real[windowSize];
      mYs := new real[windowSize];
      mXYs := new real[windowSize];
      mXSquares := new real[windowSize];
      mYSquares := new real[windowSize];
      mSumOfXs, mSumOfYs, mSumOfXYs, mSumOfXSquares, mSumOfYSquares := 0.0, 0.0, 0.0, 0.0, 0.0;
      mNumEntries, mNextEntry := 0, 0;
      Pushed := [];
      Slots := seq(windowSize, _ => (0.0, 0.0));
    }

    method Reset()
      requires Valid()
      modifies this
      ensures Valid() && Pushed == []
    {
      mNumEntries, mNextEntry := 0, 0;
      mSumOfXs, mSumOfYs, mSumOfXYs, mSumOfXSquares, mSumOfYSquares := 0.0, 0.0, 0.0, 0.0, 0.0;
      Pushed := [];
    }

    /** Subtract the slot about to be overwritten. */
    method SubtractSlot()
      requires Arrays() && mNextEntry < mWindowSize
      modifies this`mSumOfXs, this`mSumOfYs, this`mSumOfXYs, this`mSumOfXSquares, this`mSumOfYSquares
      ensures Totals() == Subtract(old(Totals()), Slot(mNextEntry)).(n := mNumEntries as real)
    {
      mSumOfXs := mSumOfXs - mXs[mNextEntry];
      mSumOfYs := mSumOfYs - mYs[mNextEntry];
      mSumOfXYs := mSumOfXYs - mXYs[mNextEntry];
      mSumOfXSquares := mSumOfXSquares - mXSquares[mNextEntry];
      mSumOfYSquares := mSumOfYSquares - mYSquares[mNextEntry];
    }

    /** Overwrite the slot in all five arrays, of which n slots held points before and n' do after. */
    method StoreSlot(x: real, y: real, ghost n: nat, ghost n': nat)
      requires Arrays() && mNextEntry < mWindowSize == |Slots| && n <= n' <= mWindowSize && Holds(Slots, n)
      requires n' == n || n' == mNextEntry + 1 == n + 1
      modifies mXs, mYs, mXYs, mXSquares, mYSquares
      ensures Slot(mNextEntry) == Parts((x, y))
      ensures Holds(Slots[mNextEntry := (x, y)], n')
    {
      mXs[mNextEntry] := x;
      mYs[mNextEntry] := y;
      mXYs[mNextEntry] := x * y;
      mXSquares[mNextEntry] := x * x;
      mYSquares[mNextEntry] := y * y;
    }

    /** Add the slot just written. */
    method AddSlot()
      requires Arrays() && mNextEntry < mWindowSize
      modifies this`mSumOfXs, this`mSumOfYs, this`mSumOfXYs, this`mSumOfXSquares, this`mSumOfYSquares
      ensures Totals() == Add(old(Totals()), Slot(mNextEntry)).(n := mNumEntries as real)
    {
      mSumOfXs := mSumOfXs + mXs[mNextEntry];
      mSumOfYs := mSumOfYs + mYs[mNextEntry];
      mSumOfXYs := mSumOfXYs + mXYs[mNextEntry];
      mSumOfXSquares := mSumOfXSquares + mXSquares[mNextEntry];
      mSumOfYSquares := mSumOfYSquares + mYSquares[mNextEntry];
    }

    /** Replace the slot under the cursor, keeping the sums in step, and move on. */
    method Replace(x: real, y: real)
      requires Arrays() && mNextEntry < mWindowSize == |Slots| && mNumEntries <= mWindowSize
      requires Holds(Slots, mNumEntries) && (mNumEntries < mWindowSize ==> mNextEntry == mNumEntries)
      modifies Repr()
      ensures mNumEntries == if old(mNumEntries) < mWindowSize then old(mNumEntries) + 1 else mWindowSize
      ensures mNextEntry == Advance(old(mNextEntry), mWindowSize)
      ensures Totals() == Plus(if old(mNumEntries) < mWindowSize then old(Totals())
                               else Subtract(old(Totals()), old(Slot(mNextEntry))), (x, y))
      ensures Pushed == old(Pushed) && Slots == old(Slots)[old(mNextEntry) := (x, y)]
      ensures Holds(Slots, mNumEntries)
    {
      hide Parts, WindowedCorrelationCoeff.Holds;
      ghost var n := mNumEntries;
      if mNumEntries < mWindowSize {
        mNumEntries := mNumEntries + 1;
      } else {
        SubtractSlot();
      }
      StoreSlot(x, y, n, mNumEntries);
      AddSlot();
      Slots := Slots[mNextEntry := (x, y)];
      mNextEntry := mNextEntry + 1;
      if mNextEntry == mWindowSize {
        mNextEntry := 0;
      }
    }

    /** Valid says what a run of pushes keeps: the five sums are the sums over the last mWindowSize pairs. */
    method Push(x: real, y: real)
      requires Valid()
      modifies Repr()
      ensures Valid() && Pushed == old(Pushed) + [(x, y)]
    {
      WindowMoves(Pushed, Slots, mNextEntry, mWindowSize, (x, y));
      hide SumsOf, LastN, Ring, Parts, Plus, Advance, Subtract;
      Replace(x, y);
      Pushed := Pushed + [(x, y)];
    }

    /**
     * Root is what sqrt returns for the denominator, which CauchySchwarz shows to be non-negative.
     */
    method GetCorrelationCoeff(root: real) returns (r: real)
      requires Valid()
      requires mNumEntries >= 2 ==> IsSqrt(root, Radicand(Totals()))
      ensures mNumEntries == |Window()|
      ensures mNumEntries == 0 ==> r == 0.0
      ensures mNumEntries == 1 ==> r == 1.0
      ensures IsCorrelation(Window(), root, r)
    {
      var s := Totals();
      ghost var w := Window();
      assert s == SumsOf(w) && |w| == mNumEntries;
      hide *;
      FewPoints(w, root);
      if mNumEntries == 0 {
        return 0.0;
      } else if mNumEntries == 1 {
        return 1.0;
      }
      FormulaCorrelates(w, root);
      r := Coefficient(s, root);
    }

    method GetSlope() returns (slope: real)
      requires Valid()
      ensures SameX(Window()) ==> slope == 0.0
      ensures forall a, b | Window() != [] && !SameX(Window()) && OnLine(Window(), a, b) :: slope == a
      ensures slope == Slope(SumsOf(Window()))
    {
      SpreadXSign(Window());
      forall a, b | Window() != [] && !SameX(Window()) && OnLine(Window(), a, b)
        ensures Slope(SumsOf(Window())) == a
      {
        SlopeOfLine(Window(), a, b);
      }
      slope := Slope(Totals());
    }
  }
}
