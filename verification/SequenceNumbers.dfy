/** Comparing wrapping counters: rtputil.h and the comparison functions of webrtc_common.h. */
module SequenceNumbers {
  import opened IntArith

  const SEQ_MODULUS: int := 0x1_0000

  type uint16 = n: int | 0 <= n < SEQ_MODULUS

  /** A counter type of at least two bits: its modulus is even and at least 4. */
  predicate Modulus(m: int) {
    m >= 4 && m % 2 == 0
  }

  /** rtpLess for an unsigned type with modulus m: the subtraction wraps, max()/2 rounds down. */
  predicate RtpLess(lhs: int, rhs: int, m: int)
    requires Modulus(m)
  {
    (lhs - rhs) % m >= (m - 1) / 2
  }

  predicate RtpGreater(lhs: int, rhs: int, m: int)
    requires Modulus(m)
  {
    (rhs - lhs) % m >= (m - 1) / 2
  }

  predicate RtpLtEq(lhs: int, rhs: int, m: int)
    requires Modulus(m)
  {
    !RtpGreater(lhs, rhs, m)
  }

  predicate RtpGtEq(lhs: int, rhs: int, m: int)
    requires Modulus(m)
  {
    !RtpLess(lhs, rhs, m)
  }

  /** cur - prev, computed in int and narrowed to int16_t. */
  function SeqDelta(cur: uint16, prev: uint16): (d: int)
    ensures -0x8000 <= d < 0x8000
    ensures (prev + d) % SEQ_MODULUS == cur
  {
    var d := (cur - prev) % SEQ_MODULUS;
    if d < 0x8000 then d else d - SEQ_MODULUS
  }

  /** IsNewerSequenceNumber (m = 2^16) and IsNewerTimestamp (m = 2^32). */
  predicate IsNewer(cur: int, prev: int, m: int)
    requires Modulus(m)
  {
    if (cur - prev) % m == m / 2 then cur > prev
    else cur != prev && (cur - prev) % m < m / 2
  }

  function Latest(a: int, b: int, m: int): int
    requires Modulus(m)
  {
    if IsNewer(a, b, m) then a else b
  }

  // ---------- Modular arithmetic ----------

  lemma ModDifference(x: int, y: int, m: int)
    requires m > 0
    ensures (x % m - y % m) % m == (x - y) % m
  {
    var q := x / m - y / m;
    assert x - y == q * m + (x % m - y % m);
    var e := x % m - y % m;
    var r := (x - y) % m;
    var k := (x - y) / m;
    assert e == (k - q) * m + r;
    ModIs(e, m, k - q, r);
  }

  lemma ModSmall(d: int, m: int)
    requires m > 0 && -m < d < m
    ensures d % m == if d >= 0 then d else d + m
  {
    if d >= 0 {
      ModIs(d, m, 0, d);
    } else {
      ModIs(d, m, -1, d + m);
    }
  }

  /** Congruent numbers less than a modulus apart are equal. */
  lemma CongruentClose(x: int, y: int, m: int)
    requires m > 0 && x % m == y % m && -m < x - y < m
    ensures x == y
  {
    ModDifference(x, y, m);
    ModSmall(x - y, m);
    ModSmall(0, m);
  }

  // ---------- rtpLess and rtpGreater ----------

  /** The three distances at which the two comparisons contradict each other. */
  predicate Antipodal(lhs: int, rhs: int, m: int)
    requires Modulus(m)
  {
    m / 2 - 1 <= (lhs - rhs) % m <= m / 2 + 1
  }

  /** Exactly one of less, equal and greater holds, unless the values are antipodal; then two do. */
  lemma RtpTrichotomy(lhs: int, rhs: int, m: int)
    requires Modulus(m) && 0 <= lhs < m && 0 <= rhs < m
    ensures lhs == rhs ==> !RtpLess(lhs, rhs, m) && !RtpGreater(lhs, rhs, m)
    ensures lhs != rhs ==> RtpLess(lhs, rhs, m) || RtpGreater(lhs, rhs, m)
    ensures RtpLess(lhs, rhs, m) && RtpGreater(lhs, rhs, m) <==> Antipodal(lhs, rhs, m)
  {
    ModSmall(lhs - rhs, m);
    ModSmall(rhs - lhs, m);
  }

  /** Closer than the antipodal distances. */
  predicate Close(x: int, y: int, m: int) {
    -(m / 2 - 1) < x - y < m / 2 - 1
  }

  /**
   * For true counters x and y less than a modulus apart, the wrapped comparisons
   * agree with the integer order exactly when they are closer than m/2 - 1.
   */
  lemma RtpEmbedsOrder(x: int, y: int, m: int)
    requires Modulus(m) && -m < x - y < m
    ensures ((RtpLess(x % m, y % m, m) <==> x < y) && (RtpGreater(x % m, y % m, m) <==> x > y))
       <==> Close(x, y, m)
  {
    ModDifference(x, y, m);
    ModDifference(y, x, m);
    ModSmall(x - y, m);
    ModSmall(y - x, m);
  }

  /** On a window of close counters the wrapped comparison is a strict order, and the non-strict ones complement it. */
  lemma RtpTransitiveOnWindow(x: int, y: int, z: int, m: int)
    requires Modulus(m) && Close(x, y, m) && Close(y, z, m) && Close(x, z, m)
    ensures RtpLess(x % m, y % m, m) && RtpLess(y % m, z % m, m) ==> RtpLess(x % m, z % m, m)
    ensures RtpLtEq(x % m, y % m, m) <==> x <= y
    ensures RtpGtEq(x % m, y % m, m) <==> x >= y
  {
    RtpEmbedsOrder(x, y, m);
    RtpEmbedsOrder(y, z, m);
    RtpEmbedsOrder(x, z, m);
  }

  // ---------- IsNewer ----------

  /** Of two distinct values exactly one is newer, and Latest does not depend on the order of its arguments. */
  lemma IsNewerTotal(a: int, b: int, m: int)
    requires Modulus(m) && 0 <= a < m && 0 <= b < m
    ensures !IsNewer(a, a, m)
    ensures a != b ==> (IsNewer(a, b, m) <==> !IsNewer(b, a, m))
    ensures Latest(a, b, m) == Latest(b, a, m)
  {
    ModSmall(0, m);
    ModSmall(a - b, m);
    ModSmall(b - a, m);
  }

  lemma IsNewerAtDistance(a: int, b: int, m: int, d: int)
    requires Modulus(m) && -(m / 2) < d < m / 2 && (a - b) % m == if d >= 0 then d else d + m
    requires d == 0 ==> a == b
    ensures IsNewer(a, b, m) <==> d > 0
  {
    ModSmall(0, m);
    assert a == b ==> a - b == 0;
  }

  /** IsNewer is the integer order of true counters less than m/2 apart. */
  lemma IsNewerEmbedsOrder(x: int, y: int, m: int)
    requires Modulus(m) && -(m / 2) < x - y < m / 2
    ensures IsNewer(x % m, y % m, m) <==> x > y
    ensures Latest(x % m, y % m, m) == (if x > y then x else y) % m
  {
    hide IsNewer;
    ModDifference(x, y, m);
    ModSmall(x - y, m);
    IsNewerAtDistance(x % m, y % m, m, x - y);
  }

  lemma IsNewerTransitiveOnWindow(x: int, y: int, z: int, m: int)
    requires Modulus(m)
    requires -(m / 2) < x - y < m / 2 && -(m / 2) < y - z < m / 2 && -(m / 2) < x - z < m / 2
    requires IsNewer(x % m, y % m, m) && IsNewer(y % m, z % m, m)
    ensures IsNewer(x % m, z % m, m) && !IsNewer(z % m, x % m, m)
  {
    hide IsNewer, Latest;
    IsNewerEmbedsOrder(x, y, m);
    IsNewerEmbedsOrder(y, z, m);
    IsNewerEmbedsOrder(x, z, m);
    IsNewerEmbedsOrder(z, x, m);
  }

  /** seqDelta recovers the true difference of counters exactly when it fits 16 signed bits. */
  lemma SeqDeltaExact(x: int, y: int)
    ensures SeqDelta(x % SEQ_MODULUS, y % SEQ_MODULUS) == x - y <==> -0x8000 <= x - y < 0x8000
  {
    ModDifference(x, y, SEQ_MODULUS);
    if -0x8000 <= x - y < 0x8000 {
      ModSmall(x - y, SEQ_MODULUS);
    }
  }
}
