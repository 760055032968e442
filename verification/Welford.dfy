/** rtpstatsutil.h: WindowedRunningMeanAndVariance over exact numbers. */
module Welford {
  import opened RealArith
  import opened Windows

  /** The running values, and the parts still in the ring, oldest first. */
  datatype State = State(m: real, s: real, mParts: seq<real>, sParts: seq<real>)

  const EMPTY := State(0.0, 0.0, [], [])

  ghost predicate Shape(w: State, size: nat) {
    size > 0 && |w.mParts| == |w.sParts| <= size
  }

  /** The running mean without the part that is about to fall out. */
  function BaseM(w: State, size: nat): real
    requires size > 0
  {
    if |w.mParts| == size then w.m - w.mParts[0] else w.m
  }

  function BaseS(w: State, size: nat): real
    requires size > 0 && |w.mParts| == |w.sParts|
  {
    if |w.mParts| == size then w.s - w.sParts[0] else w.s
  }

  function Count(w: State, size: nat): (n: nat)
    requires size > 0
    ensures n > 0
  {
    if |w.mParts| == size then size else |w.mParts| + 1
  }

  function MPart(w: State, val: real, size: nat): real
    requires size > 0
  {
    (val - BaseM(w, size)) / Count(w, size) as real
  }

  function SPart(w: State, val: real, newM: real): real {
    (val - w.m) * (val - newM)
  }

  lemma MPartIs(w: State, val: real, size: nat, d: real, n: nat)
    requires size > 0 && d == val - BaseM(w, size) && n == Count(w, size)
    ensures d / n as real == MPart(w, val, size)
  {
  }

  lemma SPartIs(w: State, val: real, newM: real, a: real, b: real)
    requires a == val - w.m && b == val - newM
    ensures a * b == SPart(w, val, newM)
  {
  }

  /** One push: take the oldest parts out when full, then apply Welford's recurrence. */
  function Next(w: State, val: real, size: nat): (w': State)
    requires size > 0 && |w.mParts| == |w.sParts| <= size
    ensures |w'.mParts| == |w'.sParts| == if |w.mParts| == size then size else |w.mParts| + 1
  {
    var p := MPart(w, val, size);
    var m := BaseM(w, size) + p;
    var q := SPart(w, val, m);
    State(m, BaseS(w, size) + q, LastN(w.mParts + [p], size), LastN(w.sParts + [q], size))
  }

  function Run(vals: seq<real>, size: nat): (w: State)
    requires size > 0
    ensures |w.mParts| == |w.sParts| == |LastN(vals, size)|
  {
    if vals == [] then EMPTY else Next(Run(vals[..|vals| - 1], size), vals[|vals| - 1], size)
  }

  lemma RunExtend(vals: seq<real>, val: real, size: nat)
    requires size > 0
    ensures Run(vals + [val], size) == Next(Run(vals, size), val, size)
  {
    assert (vals + [val])[..|vals|] == vals;
  }

  function Sum(xs: seq<real>): real {
    if xs == [] then 0.0 else Sum(xs[..|xs| - 1]) + xs[|xs| - 1]
  }

  function Mean(xs: seq<real>): real
    requires xs != []
  {
    Sum(xs) / |xs| as real
  }

  function SquaredDeviations(xs: seq<real>, c: real): real {
    if xs == [] then 0.0
    else
      var d := xs[|xs| - 1] - c;
      SquaredDeviations(xs[..|xs| - 1], c) + Square(d)
  }

  lemma SumExtend(xs: seq<real>, x: real)
    ensures Sum(xs + [x]) == Sum(xs) + x
  {
    assert (xs + [x])[..|xs|] == xs;
  }

  lemma {:induction false} SumDropFirst(xs: seq<real>)
    requires xs != []
    ensures Sum(xs[1..]) == Sum(xs) - xs[0]
    decreases |xs|
  {
    var n := |xs| - 1;
    if n > 0 {
      SumDropFirst(xs[..n]);
      assert xs[1..] == xs[..n][1..] + [xs[n]];
      SumExtend(xs[..n][1..], xs[n]);
    }
  }

  lemma SumSlide(xs: seq<real>, x: real, size: nat)
    requires size > 0 && |xs| <= size
    ensures Sum(LastN(xs + [x], size)) == Sum(xs) + x - (if |xs| == size then xs[0] else 0.0)
  {
    hide Sum;
    SumExtend(xs, x);
    if |xs| == size {
      SumDropFirst(xs);
      assert LastN(xs + [x], size) == xs[1..] + [x];
      SumExtend(xs[1..], x);
    }
  }

  /** In every state of every run the running values are the sums of the stored parts. */
  lemma {:induction false} RunningValuesAreSums(vals: seq<real>, size: nat)
    requires size > 0
    ensures var w := Run(vals, size); w.m == Sum(w.mParts) && w.s == Sum(w.sParts)
    decreases |vals|
  {
    if vals != [] {
      RunningValuesAreSums(vals[..|vals| - 1], size);
      NextKeepsSums(Run(vals[..|vals| - 1], size), vals[|vals| - 1], size);
    }
  }

  lemma NextKeepsSums(w: State, val: real, size: nat)
    requires Shape(w, size) && w.m == Sum(w.mParts) && w.s == Sum(w.sParts)
    ensures var w' := Next(w, val, size); w'.m == Sum(w'.mParts) && w'.s == Sum(w'.sParts)
  {
    hide Sum, MPart, SPart, LastN;
    var p := MPart(w, val, size);
    SumSlide(w.mParts, p, size);
    SumSlide(w.sParts, SPart(w, val, BaseM(w, size) + p), size);
  }

  // ---------- Until the window is full ----------

  function SumOfSquares(xs: seq<real>): real {
    if xs == [] then 0.0 else SumOfSquares(xs[..|xs| - 1]) + Square(xs[|xs| - 1])
  }

  /** d is the sum of squared deviations from c of n values with sum t and sum of squares q. */
  ghost predicate Deviates(d: real, c: real, n: real, t: real, q: real) {
    d == q - 2.0 * c * t + n * (c * c)
  }

  lemma DeviatesStep(d: real, c: real, n: real, t: real, q: real, x: real)
    requires Deviates(d, c, n, t, q)
    ensures Deviates(d + Square(x - c), c, n + 1.0, t + x, q + Square(x))
  {
  }

  lemma {:induction false} DeviationsExpand(xs: seq<real>, c: real)
    ensures Deviates(SquaredDeviations(xs, c), c, |xs| as real, Sum(xs), SumOfSquares(xs))
    decreases |xs|
  {
    if xs != [] {
      hide Deviates, Square;
      var n := |xs| - 1;
      DeviationsExpand(xs[..n], c);
      DeviatesStep(SquaredDeviations(xs[..n], c), c, n as real, Sum(xs[..n]), SumOfSquares(xs[..n]), xs[n]);
    }
  }

  /** What the recurrence keeps for n values with sum t and sum of squares q. */
  ghost predicate Tracks(m: real, s: real, n: real, t: real, q: real) {
    n * m == t && s == q - m * t
  }

  lemma TracksMeans(d: real, m: real, s: real, n: real, t: real, q: real)
    requires Tracks(m, s, n, t, q) && Deviates(d, m, n, t, q)
    ensures s == d
  {
    assert n * (m * m) == (n * m) * m;
  }

  /** The identity behind Welford's recurrence. */
  lemma WelfordIdentity(k: real, m: real, m': real, x: real, t: real, q: real)
    requires k * m == t && (k + 1.0) * m' == t + x
    ensures (q - m * t) + (x - m) * (x - m') == (q + x * x) - m' * (t + x)
  {
    assert x == (k + 1.0) * m' - k * m;
    assert m * t == k * (m * m);
    assert m' * (t + x) == (k + 1.0) * (m' * m');
  }

  lemma MeanStep(k: real, m: real, m': real, x: real)
    requires k >= 0.0 && m' == m + (x - m) / (k + 1.0)
    ensures (k + 1.0) * m' == k * m + x
  {
    var p := (x - m) / (k + 1.0);
    DivMul(x - m, k + 1.0);
    assert (k + 1.0) * (m + p) == (k + 1.0) * m + p * (k + 1.0);
  }

  lemma TracksStep(w: State, s': real, m': real, k: nat, size: nat, t: real, q: real, x: real)
    requires Shape(w, size) && |w.mParts| == k < size
    requires Tracks(w.m, w.s, k as real, t, q)
    requires m' == BaseM(w, size) + MPart(w, x, size) && s' == BaseS(w, size) + SPart(w, x, m')
    ensures Tracks(m', s', (k + 1) as real, t + x, q + Square(x))
  {
    MeanStep(k as real, w.m, m', x);
    WelfordIdentity(k as real, w.m, m', x, t, q);
  }

  lemma {:induction false} FirstWindowTracks(vals: seq<real>, size: nat)
    requires size > 0 && |vals| <= size
    ensures var w := Run(vals, size);
            && |w.mParts| == |vals|
            && Tracks(w.m, w.s, |vals| as real, Sum(vals), SumOfSquares(vals))
            && (vals != [] ==> w.mParts[0] == vals[0] && w.sParts[0] == 0.0)
    decreases |vals|
  {
    if vals != [] {
      var k := |vals| - 1;
      FirstWindowTracks(vals[..k], size);
      var w, w' := Run(vals[..k], size), Run(vals, size);
      if k == 0 {
        assert w'.mParts == [(vals[0] - 0.0) / 1.0];
        assert w'.sParts == [(vals[0] - 0.0) * (vals[0] - vals[0])];
      }
      hide Tracks, Square, BaseM, BaseS, MPart, SPart;
      TracksStep(w, w'.s, w'.m, k, size, Sum(vals[..k]), SumOfSquares(vals[..k]), vals[k]);
    }
  }

  /** Up to the first size pushes, m is the arithmetic mean and s the sum of squared deviations from it. */
  lemma FirstWindow(vals: seq<real>, size: nat)
    requires size > 0 && |vals| <= size
    ensures var w := Run(vals, size);
            && (vals != [] ==> w.m == Mean(vals) && w.mParts[0] == vals[0] && w.sParts[0] == 0.0)
            && w.s == SquaredDeviations(vals, w.m)
  {
    hide Run, Sum, SumOfSquares, SquaredDeviations, Deviates;
    var w, n := Run(vals, size), |vals| as real;
    FirstWindowTracks(vals, size);
    DeviationsExpand(vals, w.m);
    TracksMeans(SquaredDeviations(vals, w.m), w.m, w.s, n, Sum(vals), SumOfSquares(vals));
    if vals != [] {
      DivMul(Sum(vals), n);
      MulCompare(n, w.m, Mean(vals), n * w.m, n * Mean(vals));
    }
  }

  // ---------- After the window rolls ----------

  /**
   * A push into a full window yields the arithmetic mean of the new window exactly when the old
   * running mean without its oldest part was the mean of the values that stay.
   */
  lemma RollExactlyWhen(w: State, window: seq<real>, val: real, size: nat, base: real)
    requires Shape(w, size) && |w.mParts| == size == |window|
    requires base == w.m - w.mParts[0]
    ensures Next(w, val, size).m == Mean(LastN(window + [val], size))
       <==> (size - 1) as real * base == Sum(window[1..])
  {
    hide Sum, LastN, SPart;
    var n, m0 := size as real, base;
    var m := Next(w, val, size).m;
    var next := window[1..] + [val];
    assert LastN(window + [val], size) == next by {
      RollWindow(window, val);
    }
    SumExtend(window[1..], val);
    MeanStep(n - 1.0, m0, m, val);
    DivMul(Sum(next), n);
    MulCompare(n, m, Mean(next), n * m, n * Mean(next));
  }

  lemma RollWindow(window: seq<real>, val: real)
    requires window != []
    ensures LastN(window + [val], |window|) == window[1..] + [val]
  {
  }

  /**
   * The first time a window rolls, in terms of its values alone: whatever is pushed, the result is
   * the mean of the new window exactly when the first value outweighs the old mean in this ratio.
   */
  lemma FirstRollExactlyWhen(vals: seq<real>, val: real, size: nat)
    requires size > 0 && |vals| == size
    ensures Run(vals + [val], size).m == Mean(LastN(vals + [val], size))
       <==> Mean(vals) == (2 - size) as real * vals[0]
  {
    hide Run, Next, Mean, LastN, Sum;
    RunExtend(vals, val, size);
    FirstWindow(vals, size);
    RollExactlyWhen(Run(vals, size), vals, val, size, Mean(vals) - vals[0]);
    SumDropFirst(vals);
    MeanTimesCount(vals);
    WithoutFirst(size as real, Mean(vals), vals[0], Sum(vals), (2 - size) as real * vals[0]);
  }

  lemma MeanTimesCount(xs: seq<real>)
    requires xs != []
    ensures |xs| as real * Mean(xs) == Sum(xs)
  {
    hide Sum;
    DivMul(Sum(xs), |xs| as real);
  }

  lemma WithoutFirst(n: real, m: real, x: real, t: real, r: real)
    requires n * m == t && r == (2.0 - n) * x
    ensures (n - 1.0) * (m - x) == t - x <==> m == r
  {
    assert (n - 1.0) * (m - x) - (t - x) == r - m;
  }

  // ---------- The variance after the window rolls ----------

  /** What a push into a full window adds to the running sum, cleared of its division by n. */
  lemma AddedPart(n: real, base: real, m: real, val: real, newM: real)
    requires n > 0.0 && newM == base + (val - base) / n
    ensures n * ((val - m) * (val - newM)) == (n - 1.0) * ((val - m) * (val - base))
  {
    var a, b, p := val - m, val - base, (val - base) / n;
    DivMul(b, n);
    assert val - newM == b - p;
    assert n * (a * (b - p)) == n * (a * b) - a * (p * n);
  }

  /** n times the running sum after val enters a full window; base and baseS are what is left of the old one. */
  function Rolled(n: real, baseS: real, m: real, base: real, val: real): real {
    n * baseS + (n - 1.0) * ((val - m) * (val - base))
  }

  lemma RolledSum(w: State, val: real, size: nat, base: real, baseS: real)
    requires Shape(w, size) && |w.mParts| == size
    requires base == w.m - w.mParts[0] && baseS == w.s - w.sParts[0]
    ensures size as real * Next(w, val, size).s == Rolled(size as real, baseS, w.m, base, val)
  {
    hide LastN;
    var n, newM := size as real, base + MPart(w, val, size);
    AddedPart(n, base, w.m, val, newM);
    var q := SPart(w, val, newM);
    assert n * (baseS + q) == n * baseS + n * q;
  }

  /** A push into a full window makes the running sum of squares negative exactly when this is. */
  lemma VarianceNegativeExactlyWhen(w: State, val: real, size: nat, base: real, baseS: real)
    requires Shape(w, size) && |w.mParts| == size
    requires base == w.m - w.mParts[0] && baseS == w.s - w.sParts[0]
    ensures Next(w, val, size).s < 0.0
       <==> size as real * baseS + (size - 1) as real * ((val - w.m) * (val - base)) < 0.0
  {
    RolledSum(w, val, size, base, baseS);
    hide Next;
    MulSign(size as real, Next(w, val, size).s, Rolled(size as real, baseS, w.m, base, val));
  }

  /** The first time a window rolls, in terms of its values alone. */
  lemma FirstRollNegativeExactlyWhen(vals: seq<real>, val: real, size: nat)
    requires size > 0 && |vals| == size
    ensures var m := Mean(vals);
            Run(vals + [val], size).s < 0.0 <==>
            size as real * SquaredDeviations(vals, m) +
            (size - 1) as real * ((val - m) * (val - m + vals[0])) < 0.0
  {
    hide Run, Next, Mean, SquaredDeviations;
    RunExtend(vals, val, size);
    FirstWindow(vals, size);
    var m := Mean(vals);
    VarianceNegativeExactlyWhen(Run(vals, size), val, size, m - vals[0], SquaredDeviations(vals, m));
    assert val - (m - vals[0]) == val - m + vals[0];
  }

  /** One more value x moves the squared deviations about the mean by this much (c the mean before it). */
  lemma DeviationsMove(k: real, c: real, m': real, t: real, q: real, x: real, d: real, d': real)
    requires k * c == t && (k + 1.0) * m' == t + x
    requires Deviates(d, c, k, t, q) && Deviates(d', m', k + 1.0, t + x, q + Square(x))
    ensures (k + 1.0) * d' == (k + 1.0) * d + k * Square(x - c)
  {
    WelfordIdentity(k, c, m', x, t, q);
    TracksMeans(d, c, q - c * t, k, t, q);
    TracksMeans(d', m', (q + x * x) - m' * (t + x), k + 1.0, t + x, q + x * x);
    assert d' == d + (x - c) * (x - m');
    assert (k + 1.0) * (x - m') == k * (x - c);
    ScaledStep(k, d, x - c, x - m', d');
  }

  lemma ScaledStep(k: real, d: real, a: real, b: real, d': real)
    requires d' == d + a * b && (k + 1.0) * b == k * a
    ensures (k + 1.0) * d' == (k + 1.0) * d + k * Square(a)
  {
    assert (k + 1.0) * (a * b) == a * ((k + 1.0) * b);
  }

  lemma {:induction false} SquaresDropFirst(xs: seq<real>)
    requires xs != []
    ensures SumOfSquares(xs[1..]) + Square(xs[0]) == SumOfSquares(xs)
    decreases |xs|
  {
    hide Square;
    var n := |xs| - 1;
    if n > 0 {
      SquaresDropFirst(xs[..n]);
      var rest := xs[..n][1..];
      assert xs[1..] == rest + [xs[n]];
      assert (rest + [xs[n]])[..|rest|] == rest;
    }
  }

  lemma SquaresExtend(xs: seq<real>, x: real)
    ensures SumOfSquares(xs + [x]) == SumOfSquares(xs) + Square(x)
  {
    assert (xs + [x])[..|xs|] == xs;
  }

  /** A value appended to values with mean c. */
  lemma DeviationsAppend(xs: seq<real>, x: real, c: real)
    requires |xs| as real * c == Sum(xs)
    ensures var n := (|xs| + 1) as real;
            n * SquaredDeviations(xs + [x], Mean(xs + [x])) ==
            n * SquaredDeviations(xs, c) + |xs| as real * Square(x - c)
  {
    hide Square, Deviates, Mean, SquaredDeviations, Sum, SumOfSquares;
    var next, k, m' := xs + [x], |xs| as real, Mean(xs + [x]);
    SumExtend(xs, x);
    SquaresExtend(xs, x);
    DeviationsExpand(xs, c);
    DeviationsExpand(next, m');
    MeanTimesCount(next);
    DeviationsMove(k, c, m', Sum(xs), SumOfSquares(xs), x, SquaredDeviations(xs, c), SquaredDeviations(next, m'));
  }

  /** The first value before values with mean c. */
  lemma DeviationsPrepend(xs: seq<real>, c: real)
    requires xs != [] && (|xs| - 1) as real * c == Sum(xs[1..])
    ensures |xs| as real * SquaredDeviations(xs, Mean(xs)) ==
            |xs| as real * SquaredDeviations(xs[1..], c) + (|xs| - 1) as real * Square(xs[0] - c)
  {
    hide Square, Deviates, Mean, SquaredDeviations, Sum, SumOfSquares;
    var rest, k, m' := xs[1..], (|xs| - 1) as real, Mean(xs);
    DeviationsExpand(rest, c);
    DeviationsExpand(xs, m');
    MeanTimesCount(xs);
    SumDropFirst(xs);
    SquaresDropFirst(xs);
    DeviationsMove(k, c, m', Sum(rest), SumOfSquares(rest), xs[0], SquaredDeviations(rest, c), SquaredDeviations(xs, m'));
  }

  /**
   * A push into a full window yields the squared deviations of the new window exactly when this
   * holds, where c is the mean of the values that stay.
   */
  lemma VarianceRollsExactlyWhen(w: State, window: seq<real>, val: real, size: nat, base: real, baseS: real, c: real)
    requires Shape(w, size) && |w.mParts| == size == |window|
    requires base == w.m - w.mParts[0] && baseS == w.s - w.sParts[0]
    requires (size - 1) as real * c == Sum(window[1..])
    ensures var next := LastN(window + [val], size);
            Next(w, val, size).s == SquaredDeviations(next, Mean(next)) <==>
            size as real * baseS + (size - 1) as real * ((val - w.m) * (val - base)) ==
            size as real * SquaredDeviations(window[1..], c) + (size - 1) as real * Square(val - c)
  {
    hide Next, Sum, SquaredDeviations, Mean, Square, LastN;
    var n, rest, next := size as real, window[1..], LastN(window + [val], size);
    RollWindow(window, val);
    RolledSum(w, val, size, base, baseS);
    DeviationsAppend(rest, val, c);
    MulCompare(n, Next(w, val, size).s, SquaredDeviations(next, Mean(next)),
               n * Next(w, val, size).s, n * SquaredDeviations(next, Mean(next)));
  }

  /** The first roll, in terms of the pushed values: c is the mean of all of them but the first. */
  lemma FirstVarianceRollsExactlyWhen(vals: seq<real>, val: real, size: nat)
    requires size > 1 && |vals| == size
    ensures var next, m, c, x := vals[1..] + [val], Mean(vals), Mean(vals[1..]), vals[0];
            Run(vals + [val], size).s == SquaredDeviations(next, Mean(next)) <==>
            (val - m) * (val - m + x) == Square(val - c) - Square(x - c)
  {
    hide Run, Next, Sum, SquaredDeviations, Mean, Square, LastN;
    var n, m, c, x := size as real, Mean(vals), Mean(vals[1..]), vals[0];
    RunExtend(vals, val, size);
    FirstWindow(vals, size);
    MeanTimesCount(vals[1..]);
    DeviationsPrepend(vals, c);
    RollWindow(vals, val);
    var d, e := SquaredDeviations(vals, m), SquaredDeviations(vals[1..], c);
    VarianceRollsExactlyWhen(Run(vals, size), vals, val, size, m - x, d, c);
    FirstRollBalance(n, d, e, (val - m) * (val - m + x), Square(val - c), Square(x - c));
    assert val - (m - x) == val - m + x;
  }

  lemma FirstRollBalance(n: real, d: real, e: real, p: real, a: real, b: real)
    requires n > 1.0 && n * d == n * e + (n - 1.0) * b
    ensures n * d + (n - 1.0) * p == n * e + (n - 1.0) * a <==> p == a - b
  {
    MulCompare(n - 1.0, p, a - b, (n - 1.0) * p, (n - 1.0) * (a - b));
  }

  function Repeat(c: real, n: nat): (xs: seq<real>)
    ensures |xs| == n
  {
    seq(n, _ => c)
  }

  function Pow(q: real, j: nat): real {
    if j == 0 then 1.0 else q * Pow(q, j - 1)
  }

  /** The first k of the parts are zero. */
  ghost predicate ZeroUpTo(parts: seq<real>, k: nat) {
    k <= |parts| && forall i | 0 <= i < k :: parts[i] == 0.0
  }

  lemma RepeatExtend(c: real, n: nat)
    ensures Repeat(c, n + 1) == Repeat(c, n) + [c]
  {
  }

  /** While the window fills, a constant's first part is c and the others are zero. */
  lemma {:induction false} ConstantFills(c: real, k: nat, size: nat)
    requires 0 < k <= size
    ensures var w := Run(Repeat(c, k), size); w.m == c && |w.mParts| == k && w.mParts[0] == c && ZeroUpTo(w.mParts[1..], k - 1)
    decreases k
  {
    RepeatExtend(c, k - 1);
    RunExtend(Repeat(c, k - 1), c, size);
    var w := Run(Repeat(c, k - 1), size);
    if k == 1 {
      assert Repeat(c, 0) == [];
      hide Run;
      FirstPart(w, c, size);
    } else {
      ConstantFills(c, k - 1, size);
      hide Run;
      ZeroPart(w, c, size);
    }
  }

  lemma FirstPart(w: State, c: real, size: nat)
    requires size > 0 && w == EMPTY
    ensures var w' := Next(w, c, size); w'.m == c && w'.mParts == [c]
  {
    assert MPart(w, c, size) == c;
    hide SPart;
  }

  lemma ZeroPart(w: State, c: real, size: nat)
    requires size > 0 && 0 < |w.mParts| == |w.sParts| < size && w.m == c && w.mParts[0] == c
    requires ZeroUpTo(w.mParts[1..], |w.mParts| - 1)
    ensures var w' := Next(w, c, size);
            && w'.m == c && |w'.mParts| == |w.mParts| + 1 && w'.mParts[0] == c && ZeroUpTo(w'.mParts[1..], |w.mParts|)
  {
    DivIs(0.0, Count(w, size) as real, 0.0);
    assert MPart(w, c, size) == 0.0;
    hide SPart;
    assert (w.mParts + [0.0])[1..] == w.mParts[1..] + [0.0];
  }

  /** One roll of a constant: of the gap to c one share in n is closed. */
  lemma ConstantRolls(w: State, c: real, size: nat, base: real, gap: real, q: real)
    requires Shape(w, size) && |w.mParts| == size && base == w.m - w.mParts[0]
    requires base == c - gap && q == 1.0 - 1.0 / size as real
    ensures var w' := Next(w, c, size); w'.m == c - q * gap && |w'.mParts| == size && w'.mParts[..size - 1] == w.mParts[1..]
  {
    CloseGap(c, gap, size as real, q);
    hide SPart;
    RollWindow(w.mParts, MPart(w, c, size));
    hide LastN, MPart;
  }

  lemma CloseGap(c: real, gap: real, n: real, q: real)
    requires n > 0.0 && q == 1.0 - 1.0 / n
    ensures (c - gap) + (c - (c - gap)) / n == c - q * gap
  {
    DivMul(1.0, n);
    var r := 1.0 / n;
    OneShare(r, n, gap, r * n);
    DivIs(gap, n, r * gap);
  }

  lemma OneShare(r: real, n: real, gap: real, one: real)
    requires one == r * n && one == 1.0
    ensures gap == (r * gap) * n
  {
    assert (r * gap) * n == gap * one;
  }

  /** After j rolls of a constant, c times q to the j is missing, and the parts before the first roll are used up in turn. */
  ghost predicate Misses(w: State, c: real, size: nat, j: nat, gap: real) {
    && Shape(w, size) && |w.mParts| == size
    && (if j == 0 then w.m == w.mParts[0] == c == gap && ZeroUpTo(w.mParts[1..], size - 1)
        else j <= size && w.m == c - gap && ZeroUpTo(w.mParts, size - j))
  }

  lemma MissesStep(w: State, c: real, size: nat, j: nat, gap: real, q: real)
    requires j < size && Misses(w, c, size, j, gap) && q == 1.0 - 1.0 / size as real
    ensures Misses(Next(w, c, size), c, size, j + 1, q * gap)
  {
    hide Next;
    assert w.m - w.mParts[0] == c - gap;
    ConstantRolls(w, c, size, w.m - w.mParts[0], gap, q);
    var parts := Next(w, c, size).mParts;
    forall i | 0 <= i < size - (j + 1) ensures parts[i] == 0.0 {
      assert parts[..size - 1][i] == w.mParts[1..][i];
    }
  }

  /** c times q to the j, as a run of rolls makes it. */
  function Missing(c: real, q: real, j: nat): real {
    if j == 0 then c else q * Missing(c, q, j - 1)
  }

  lemma {:induction false} MissingIsPower(c: real, q: real, j: nat)
    ensures Missing(c, q, j) == c * Pow(q, j)
    decreases j
  {
    if j > 0 {
      MissingIsPower(c, q, j - 1);
      var p := Pow(q, j - 1);
      assert q * (c * p) == c * (q * p);
    }
  }

  lemma {:induction false} ConstantMisses(c: real, size: nat, j: nat, q: real)
    requires size > 0 && j <= size && q == 1.0 - 1.0 / size as real
    ensures Misses(Run(Repeat(c, size + j), size), c, size, j, Missing(c, q, j))
    decreases j
  {
    hide Run, Next, Repeat;
    if j == 0 {
      ConstantFills(c, size, size);
      assert Repeat(c, size + j) == Repeat(c, size);
    } else {
      var vals, gap := Repeat(c, size + j - 1), Missing(c, q, j - 1);
      RepeatExtend(c, size + j - 1);
      RunExtend(vals, c, size);
      ConstantMisses(c, size, j - 1, q);
      assert Missing(c, q, j) == q * gap;
      hide Missing;
      MissesStep(Run(vals, size), c, size, j - 1, gap, q);
    }
  }

  /**
   * A constant stream reports c until a window of two or more values rolls. The first roll reports
   * c / size, and each further one, until the window has been replaced, closes one share in size of
   * what is missing.
   */
  lemma ConstantStreamDrifts(c: real, size: nat, j: nat)
    requires size > 0 && j <= size
    ensures var m := Run(Repeat(c, size + j), size).m;
            if j == 0 then m == c else m == c * (1.0 - Pow(1.0 - 1.0 / size as real, j))
    ensures j == 1 ==> Run(Repeat(c, size + j), size).m == c / size as real
  {
    hide Run, Repeat, Pow;
    var q := 1.0 - 1.0 / size as real;
    var gap := Missing(c, q, j);
    ConstantMisses(c, size, j, q);
    MissingIsPower(c, q, j);
    assert j == 1 ==> gap == q * Missing(c, q, 0) == q * c;
    hide Missing;
    Remaining(c, size as real, q, gap, Pow(q, j));
  }

  lemma Remaining(c: real, n: real, q: real, gap: real, power: real)
    requires n > 0.0 && q == 1.0 - 1.0 / n && gap == c * power
    ensures c - gap == c * (1.0 - power)
    ensures gap == q * c ==> c - gap == c / n
  {
    CloseGap(c, c, n, q);
  }

  lemma RunThree(a: real, b: real, c: real, size: nat)
    requires size > 0
    ensures Run([a, b, c], size) == Next(Next(Next(EMPTY, a, size), b, size), c, size)
  {
    assert Run([], size) == EMPTY;
    hide Run, Next;
    RunExtend([], a, size);
    assert [] + [a] == [a];
    RunExtend([a], b, size);
    assert [a] + [b] == [a, b];
    RunExtend([a, b], c, size);
    assert [a, b] + [c] == [a, b, c];
  }

  lemma NextIs(w: State, val: real, m0: real, n: real, p: real, q: real)
    requires Shape(w, 2) && m0 == BaseM(w, 2) && n == Count(w, 2) as real
    requires val - m0 == p * n && q == SPart(w, val, m0 + p)
    ensures Next(w, val, 2) == State(m0 + p, BaseS(w, 2) + q, LastN(w.mParts + [p], 2), LastN(w.sParts + [q], 2))
  {
    hide SPart, LastN;
    DivIs(val - m0, n, p);
  }

  const TWO_ONES: State := State(1.0, 0.0, [1.0, 0.0], [0.0, 0.0])

  lemma OneThenOne()
    ensures Next(Next(EMPTY, 1.0, 2), 1.0, 2) == TWO_ONES
  {
    hide Next;
    NextIs(EMPTY, 1.0, 0.0, 1.0, 1.0, 0.0);
    var w := State(1.0, 0.0, [1.0], [0.0]);
    assert Next(EMPTY, 1.0, 2) == w;
    NextIs(w, 1.0, 1.0, 2.0, 0.0, 0.0);
  }

  lemma ThenHalf()
    ensures Next(TWO_ONES, 0.5, 2).s == -0.125
  {
    hide Next;
    NextIs(TWO_ONES, 0.5, 0.0, 2.0, 0.25, -0.125);
  }

  /** The variance estimate of a rolled window can be negative, which is what stddev guards against. */
  lemma VarianceGoesNegative()
    ensures Run([1.0, 1.0, 0.5], 2).s == -0.125
  {
    hide Run, Next;
    RunThree(1.0, 1.0, 0.5, 2);
    OneThenOne();
    ThenHalf();
  }

  /** With a window of one value nothing drifts: the mean is the last value and the deviation zero. */
  lemma {:induction false} WindowOfOne(vals: seq<real>)
    requires vals != []
    ensures var w, x := Run(vals, 1), vals[|vals| - 1];
            w == State(x, 0.0, [x], [0.0])
    decreases |vals|
  {
    var k := |vals| - 1;
    var w := Run(vals[..k], 1);
    if k > 0 {
      WindowOfOne(vals[..k]);
    }
    assert Run(vals, 1) == Next(w, vals[k], 1);
    hide Run;
    IntoWindowOfOne(w, vals[k]);
  }

  lemma IntoWindowOfOne(w: State, x: real)
    requires w == EMPTY || (w.s == 0.0 && w.mParts == [w.m] && w.sParts == [0.0])
    ensures Next(w, x, 1) == State(x, 0.0, [x], [0.0])
  {
    assert MPart(w, x, 1) == x;
    assert SPart(w, x, x) == 0.0;
  }

  // ---------- The class ----------

  class WindowedRunningMeanAndVariance {
    const WINDOW_SIZE: nat
    const mOldMParts: array<real>
    const mOldSParts: array<real>
    var mOldM: real
    var mNewM: real
    var mNewS: real
    var mNumEntries: nat
    var mNextEntry: nat
    ghost var Pushed: seq<real>  // everything pushed since the last reset

    ghost predicate Valid()
      reads this, mOldMParts, mOldSParts
    {
      && WINDOW_SIZE > 0 && mOldMParts != mOldSParts
      && mOldMParts.Length == mOldSParts.Length == WINDOW_SIZE
      && var w := Run(Pushed, WINDOW_SIZE);
      && mNumEntries == |w.mParts|
      && mNewM == mOldM == w.m && mNewS == w.s
      && Ring(mOldMParts[..], mNextEntry, w.mParts)
      && Ring(mOldSParts[..], mNextEntry, w.sParts)
    }

    /** No part of an earlier value is left in either array. */
    ghost predicate Cleared()
      reads this, mOldMParts, mOldSParts
    {
      && (forall i | 0 <= i < mOldMParts.Length :: mOldMParts[i] == 0.0)
      && (forall i | 0 <= i < mOldSParts.Length :: mOldSParts[i] == 0.0)
    }

    constructor (windowSize: nat)
      requires windowSize > 0
      ensures Valid() && Pushed == [] && WINDOW_SIZE == windowSize
      ensures fresh(mOldMParts) && fresh(mOldSParts) && Cleared()
    {
      WINDOW_SIZE := windowSize;
      mOldMParts := new real[windowSize](_ => 0.0);
      mOldSParts := new real[windowSize](_ => 0.0);
      mOldM, mNewM, mNewS := 0.0, 0.0, 0.0;
      mNumEntries, mNextEntry := 0, 0;
      Pushed := [];
    }

    /** Counts the new value, or takes the oldest parts out of the running values. */
    method MakeRoom(ghost w: State)
      requires WINDOW_SIZE > 0 && mOldMParts.Length == mOldSParts.Length == WINDOW_SIZE && mNextEntry < WINDOW_SIZE
      requires Shape(w, WINDOW_SIZE) && mNumEntries == |w.mParts| && mNewM == w.m && mNewS == w.s
      requires mNumEntries == WINDOW_SIZE ==>
                 mOldMParts[mNextEntry] == w.mParts[0] && mOldSParts[mNextEntry] == w.sParts[0]
      modifies this`mNumEntries, this`mNewM, this`mNewS
      ensures mNumEntries == Count(w, WINDOW_SIZE) && mNewM == BaseM(w, WINDOW_SIZE) && mNewS == BaseS(w, WINDOW_SIZE)
    {
      if mNumEntries < WINDOW_SIZE {
        mNumEntries := mNumEntries + 1;
      } else {
        mNewM := mNewM - mOldMParts[mNextEntry];
        mNewS := mNewS - mOldSParts[mNextEntry];
      }
    }

    /** The arithmetic of one push; w is the abstract state before it. */
    method Replace(val: real, ghost w: State)
      requires WINDOW_SIZE > 0 && mOldMParts != mOldSParts
      requires mOldMParts.Length == mOldSParts.Length == WINDOW_SIZE && mNextEntry < WINDOW_SIZE
      requires Shape(w, WINDOW_SIZE) && mNumEntries == |w.mParts| && mNewM == mOldM == w.m && mNewS == w.s
      requires mNumEntries == WINDOW_SIZE ==>
                 mOldMParts[mNextEntry] == w.mParts[0] && mOldSParts[mNextEntry] == w.sParts[0]
      modifies this, mOldMParts, mOldSParts
      ensures Pushed == old(Pushed) && mNextEntry == Advance(old(mNextEntry), WINDOW_SIZE)
      ensures mNumEntries == Count(w, WINDOW_SIZE)
      ensures var p := MPart(w, val, WINDOW_SIZE);
              var q := SPart(w, val, BaseM(w, WINDOW_SIZE) + p);
              && mNewM == mOldM == BaseM(w, WINDOW_SIZE) + p
              && mNewS == BaseS(w, WINDOW_SIZE) + q
              && mOldMParts[..] == old(mOldMParts[..])[old(mNextEntry) := p]
              && mOldSParts[..] == old(mOldSParts[..])[old(mNextEntry) := q]
    {
      hide Count, BaseM, BaseS, MPart, SPart;
      MakeRoom(w);
      MPartIs(w, val, WINDOW_SIZE, val - mNewM, mNumEntries);
      mOldMParts[mNextEntry] := (val - mNewM) / mNumEntries as real;
      mNewM := mNewM + mOldMParts[mNextEntry];
      SPartIs(w, val, mNewM, val - mOldM, val - mNewM);
      mOldSParts[mNextEntry] := (val - mOldM) * (val - mNewM);
      mNewS := mNewS + mOldSParts[mNextEntry];
      mOldM := mNewM;
      mNextEntry := mNextEntry + 1;
      if mNextEntry == WINDOW_SIZE {
        mNextEntry := 0;
      }
    }

    method Push(val: real)
      requires Valid()
      modifies this, mOldMParts, mOldSParts
      ensures Valid() && Pushed == old(Pushed) + [val]
    {
      ghost var w := Run(Pushed, WINDOW_SIZE);
      ghost var p := MPart(w, val, WINDOW_SIZE);
      ghost var q := SPart(w, val, BaseM(w, WINDOW_SIZE) + p);
      ghost var ms, ss, k := mOldMParts[..], mOldSParts[..], mNextEntry;
      RunExtend(Pushed, val, WINDOW_SIZE);
      RingPush(ms, k, w.mParts, p);
      RingPush(ss, k, w.sParts, q);
      assert k < WINDOW_SIZE && |ms| == |ss| == WINDOW_SIZE;
      ghost var w' := Next(w, val, WINDOW_SIZE);
      assert w' == State(BaseM(w, WINDOW_SIZE) + p, BaseS(w, WINDOW_SIZE) + q,
                         LastN(w.mParts + [p], WINDOW_SIZE), LastN(w.sParts + [q], WINDOW_SIZE));
      assert |w'.mParts| == Count(w, WINDOW_SIZE);
      hide Run, Next, BaseM, BaseS, MPart, SPart, Ring, LastN, Advance, Count;
      Replace(val, w);
      Pushed := Pushed + [val];
      assert mOldMParts[..] == ms[k := p] && mOldSParts[..] == ss[k := q];
    }

    method GetMean() returns (r: real)
      requires Valid()
      ensures Pushed == [] ==> r == 0.0
      ensures 0 < |Pushed| <= WINDOW_SIZE ==> r == Mean(Pushed)
      ensures Pushed != [] ==> r == Run(Pushed, WINDOW_SIZE).m
    {
      hide Sum;
      if |Pushed| <= WINDOW_SIZE {
        FirstWindow(Pushed, WINDOW_SIZE);
      }
      r := if mNumEntries > 0 then mNewM else 0.0;
    }

    method GetVariance() returns (r: real)
      requires Valid()
      ensures mNumEntries <= 1 ==> r == 0.0
      ensures mNumEntries > 1 ==> (mNumEntries - 1) as real * r == Run(Pushed, WINDOW_SIZE).s
      ensures 1 < |Pushed| <= WINDOW_SIZE ==>
                (|Pushed| - 1) as real * r == SquaredDeviations(Pushed, Mean(Pushed))
      ensures 1 < WINDOW_SIZE == |Pushed| - 1 ==>
                var (vals, val) := (Pushed[..WINDOW_SIZE], Pushed[WINDOW_SIZE]);
                var m := Mean(vals);
                r < 0.0 <==>
                WINDOW_SIZE as real * SquaredDeviations(vals, m) +
                (WINDOW_SIZE - 1) as real * ((val - m) * (val - m + vals[0])) < 0.0
    {
      hide Sum, SquaredDeviations, Run;
      if |Pushed| <= WINDOW_SIZE {
        FirstWindow(Pushed, WINDOW_SIZE);
      } else if |Pushed| == WINDOW_SIZE + 1 {
        assert Pushed == Pushed[..WINDOW_SIZE] + [Pushed[WINDOW_SIZE]];
        FirstRollNegativeExactlyWhen(Pushed[..WINDOW_SIZE], Pushed[WINDOW_SIZE], WINDOW_SIZE);
      }
      r := 0.0;
      if mNumEntries > 1 {
        DivMul(mNewS, (mNumEntries - 1) as real);
        r := mNewS / (mNumEntries - 1) as real;
      }
    }

    method Reset()
      requires Valid()
      modifies this, mOldMParts, mOldSParts
      ensures Valid() && Pushed == [] && Cleared()
    {
      forall i | 0 <= i < WINDOW_SIZE {
        mOldMParts[i] := 0.0;
      }
      forall i | 0 <= i < WINDOW_SIZE {
        mOldSParts[i] := 0.0;
      }
      mOldM, mNewM, mNewS := 0.0, 0.0, 0.0;
      mNumEntries, mNextEntry := 0, 0;
      Pushed := [];
    }
  }
}
