/** rtpstatsutil.h: BasicHistogram with its lazy median, and OverlappedHistogram. */
module Histograms {
  import opened IntArith
  import opened Windows

  const TWO_32: int := 0x1_0000_0000
  const INT_MAX: int := 0x7FFF_FFFF
  const INT_MIN: int := -0x8000_0000

  type int32 = n: int | INT_MIN <= n <= INT_MAX

  /** The template arguments MINVAL, MAXVAL and STEPSIZE. */
  datatype Range = Range(lo: int32, hi: int32, step: int32) {
    predicate Valid() {
      lo <= hi && step > 0 && hi - lo <= INT_MAX
    }

    function NumBins(): (n: nat)
      requires Valid()
      ensures n >= 2
    {
      DivMonotone(0, hi - lo, step);
      (hi - lo) / step + 2
    }

    /** getIndex: the first and last bins take what lies outside the range. */
    function Index(val: int): (b: nat)
      requires Valid()
      ensures b < NumBins()
    {
      if val < lo then 0
      else if val >= hi then NumBins() - 1
      else
        DivMonotone(val - lo, hi - lo, step);
        (val - lo) / step + 1
    }

    /** The value median() reports for a bin: unsigned arithmetic, then a cast to int. */
    function Centre(idx: nat): int {
      lo + ToInt32(step * ((idx - 1) % TWO_32)) + step / 2
    }
  }

  function ToInt32(x: int): int {
    var r := x % TWO_32;
    if r <= INT_MAX then r else r - TWO_32
  }

  lemma IndexMonotone(r: Range, u: int, v: int)
    requires r.Valid() && u <= v
    ensures r.Index(u) <= r.Index(v)
  {
    if r.lo <= u && v < r.hi {
      DivMonotone(u - r.lo, v - r.lo, r.step);
    }
  }

  lemma WrapAtZero(step: int, x: int)
    requires 0 < step <= INT_MAX && x == step * (TWO_32 - 1)
    ensures ToInt32(x) == -step
  {
    ModIs(x, TWO_32, step - 1, TWO_32 - step);
  }

  /** The wrap of idx - 1 at bin 0 and the cast undo each other. */
  lemma CentreUnwrapped(r: Range, idx: nat)
    requires r.Valid() && idx < r.NumBins()
    ensures r.Centre(idx) == r.lo + r.step * (idx - 1) + r.step / 2
  {
    if idx == 0 {
      WrapAtZero(r.step, r.step * (TWO_32 - 1));
    } else {
      var k := idx - 1;
      BoundedIndex(r.step, r.hi - r.lo, k);
    }
  }

  lemma BoundedIndex(step: int, span: int, k: int)
    requires 0 < step && 0 <= span <= INT_MAX && 0 <= k <= span / step
    ensures 0 <= step * k <= span && k % TWO_32 == k
    ensures ToInt32(step * k) == step * k
  {
    MulMonotone(step, k, span / step);
    MulMonotone(k, 1, step);
    MulMonotone(step, 0, k);
  }

  /** A value inside the range lies within half a step of the centre of its bin. */
  lemma CentreIsClose(r: Range, v: int)
    requires r.Valid() && r.lo <= v < r.hi
    ensures -(r.step / 2) <= r.Centre(r.Index(v)) - v <= r.step / 2
  {
    CentreUnwrapped(r, r.Index(v));
    var q := (v - r.lo) / r.step;
    assert v - r.lo == r.step * q + (v - r.lo) % r.step;
  }

  /** Which values a bin takes: bin 0 those below the range, the last one all above it, and each other one step. */
  lemma IndexExactly(r: Range, v: int)
    requires r.Valid()
    ensures var b := r.Index(v);
            && (v < r.lo <==> b == 0)
            && (v >= r.hi ==> b == (r.hi - r.lo) / r.step + 1)
            && (r.lo <= v < r.hi ==> r.lo + r.step * (b - 1) <= v < r.lo + r.step * b)
  {
    if r.lo <= v < r.hi {
      var q := (v - r.lo) / r.step;
      assert v - r.lo == r.step * q + (v - r.lo) % r.step;
      assert r.step * (q + 1) == r.step * q + r.step;
    }
  }

  // ---------- Counting ----------

  /** How many values fall in bin b. */
  function CountAt(r: Range, vs: seq<int>, b: int): (n: nat)
    requires r.Valid()
    ensures n <= |vs|
  {
    if vs == [] then 0
    else CountAt(r, vs[..|vs| - 1], b) + if r.Index(vs[|vs| - 1]) == b then 1 else 0
  }

  lemma CountAtExtend(r: Range, vs: seq<int>, v: int, b: int)
    requires r.Valid()
    ensures CountAt(r, vs + [v], b) == CountAt(r, vs, b) + if r.Index(v) == b then 1 else 0
  {
    assert (vs + [v])[..|vs|] == vs;
  }

  /** How many values fall in bins 0 to b. */
  function CountUpTo(r: Range, vs: seq<int>, b: int): (n: nat)
    requires r.Valid()
    ensures n <= |vs|
  {
    if vs == [] then 0
    else CountUpTo(r, vs[..|vs| - 1], b) + if r.Index(vs[|vs| - 1]) <= b then 1 else 0
  }

  lemma {:induction false} CountUpToStep(r: Range, vs: seq<int>, b: int)
    requires r.Valid()
    ensures CountUpTo(r, vs, b) == CountUpTo(r, vs, b - 1) + CountAt(r, vs, b)
    decreases |vs|
  {
    if vs != [] {
      CountUpToStep(r, vs[..|vs| - 1], b);
    }
  }

  lemma {:induction false} CountUpToAll(r: Range, vs: seq<int>, b: int)
    requires r.Valid() && forall v | v in vs :: r.Index(v) <= b
    ensures CountUpTo(r, vs, b) == |vs|
    decreases |vs|
  {
    if vs != [] {
      CountUpToAll(r, vs[..|vs| - 1], b);
    }
  }

  lemma {:induction false} CountUpToNone(r: Range, vs: seq<int>, b: int)
    requires r.Valid() && forall v | v in vs :: r.Index(v) > b
    ensures CountUpTo(r, vs, b) == 0
    decreases |vs|
  {
    if vs != [] {
      CountUpToNone(r, vs[..|vs| - 1], b);
    }
  }

  function BinSum(bins: seq<int>): int {
    if bins == [] then 0 else BinSum(bins[..|bins| - 1]) + bins[|bins| - 1]
  }

  lemma {:induction false} BinSumIsCount(r: Range, vs: seq<int>, bins: seq<int>)
    requires r.Valid() && forall b | 0 <= b < |bins| :: bins[b] == CountAt(r, vs, b)
    ensures BinSum(bins) == CountUpTo(r, vs, |bins| - 1)
    decreases |bins|
  {
    if bins == [] {
      CountUpToNone(r, vs, -1);
    } else {
      BinSumIsCount(r, vs, bins[..|bins| - 1]);
      CountUpToStep(r, vs, |bins| - 1);
    }
  }

  // ---------- Half of the values ----------

  /** How many values lie below edge. */
  function NumBelow(vs: seq<int>, edge: int): (n: nat)
    ensures n <= |vs|
  {
    if vs == [] then 0 else NumBelow(vs[..|vs| - 1], edge) + if vs[|vs| - 1] < edge then 1 else 0
  }

  lemma {:induction false} NumBelowMonotone(vs: seq<int>, e: int, f: int)
    requires e <= f
    ensures NumBelow(vs, e) <= NumBelow(vs, f)
    decreases |vs|
  {
    if vs != [] {
      NumBelowMonotone(vs[..|vs| - 1], e, f);
    }
  }

  function LastBin(r: Range): int
    requires r.Valid()
  {
    (r.hi - r.lo) / r.step + 1
  }

  /** The values in bins 0 to b are those below the upper edge of bin b; the last bin has none. */
  lemma IndexUpTo(r: Range, v: int, b: int)
    requires r.Valid() && 0 <= b < LastBin(r)
    ensures r.Index(v) <= b <==> v < r.lo + r.step * b
  {
    var i := r.Index(v);
    IndexExactly(r, v);
    MulMonotone(r.step, 0, b);
    MulMonotone(r.step, b, (r.hi - r.lo) / r.step);
    if i <= b {
      MulMonotone(r.step, i, b);
    } else {
      MulMonotone(r.step, b, i - 1);
    }
  }

  lemma {:induction false} CountUpToEdge(r: Range, vs: seq<int>, b: int)
    requires r.Valid() && 0 <= b < LastBin(r)
    ensures CountUpTo(r, vs, b) == NumBelow(vs, r.lo + r.step * b)
    decreases |vs|
  {
    if vs != [] {
      var n := |vs| - 1;
      hide Range.Index;
      CountUpToEdge(r, vs[..n], b);
      IndexUpTo(r, vs[n], b);
    }
  }

  /**
   * Bin b is the first up to which half of the values, and at least one, lie. Bin b ends at
   * lo + step * b, except the last, which takes everything.
   */
  ghost predicate IsHalfway(r: Range, vs: seq<int>, b: nat)
    requires r.Valid()
  {
    && b <= LastBin(r)
    && (var upTo := if b == LastBin(r) then |vs| else NumBelow(vs, r.lo + r.step * b);
        upTo >= |vs| / 2 && upTo >= 1)
    && (b > 0 ==>
          var before := NumBelow(vs, r.lo + r.step * (b - 1));
          before < |vs| / 2 || before == 0)
  }

  /** m is the centre of that bin. */
  ghost predicate IsHalfwayCentre(r: Range, vs: seq<int>, m: int)
    requires r.Valid()
  {
    exists b: nat | IsHalfway(r, vs, b) :: m == r.lo + r.step * (b - 1) + r.step / 2
  }

  lemma HalfwayBelow(r: Range, vs: seq<int>, b: nat, c: nat)
    requires r.Valid() && IsHalfway(r, vs, b) && b < c
    ensures !IsHalfway(r, vs, c)
  {
    if c <= LastBin(r) {
      MulMonotone(r.step, b, c - 1);
      NumBelowMonotone(vs, r.lo + r.step * b, r.lo + r.step * (c - 1));
    }
  }

  /** The description has one answer. */
  lemma HalfwayCentreIsUnique(r: Range, vs: seq<int>, m: int, m': int)
    requires r.Valid() && IsHalfwayCentre(r, vs, m) && IsHalfwayCentre(r, vs, m')
    ensures m == m'
  {
    var b: nat :| IsHalfway(r, vs, b) && m == r.lo + r.step * (b - 1) + r.step / 2;
    var c: nat :| IsHalfway(r, vs, c) && m' == r.lo + r.step * (c - 1) + r.step / 2;
    hide IsHalfway;
    if b < c {
      HalfwayBelow(r, vs, b, c);
    } else if c < b {
      HalfwayBelow(r, vs, c, b);
    }
  }

  lemma HalfwayFromCounts(r: Range, vs: seq<int>, b: nat)
    requires r.Valid() && b < r.NumBins()
    requires CountUpTo(r, vs, b) >= |vs| / 2 && CountUpTo(r, vs, b) >= 1
    requires CountUpTo(r, vs, b - 1) < |vs| / 2 || CountUpTo(r, vs, b - 1) == 0
    ensures IsHalfway(r, vs, b)
  {
    hide CountUpTo, NumBelow;
    if b < LastBin(r) {
      CountUpToEdge(r, vs, b);
    }
    if b > 0 {
      CountUpToEdge(r, vs, b - 1);
    }
  }

  // ---------- Order statistics ----------

  ghost predicate Sorted(s: seq<int>) {
    forall i, j | 0 <= i <= j < |s| :: s[i] <= s[j]
  }

  function Insert(s: seq<int>, v: int): (t: seq<int>)
    ensures |t| == |s| + 1
  {
    if s == [] || s[|s| - 1] <= v then s + [v]
    else Insert(s[..|s| - 1], v) + [s[|s| - 1]]
  }

  function SortedOf(vs: seq<int>): (s: seq<int>)
    ensures |s| == |vs|
  {
    if vs == [] then [] else Insert(SortedOf(vs[..|vs| - 1]), vs[|vs| - 1])
  }

  lemma {:induction false} InsertContents(s: seq<int>, v: int)
    ensures multiset(Insert(s, v)) == multiset(s) + multiset{v}
    decreases |s|
  {
    if s != [] && s[|s| - 1] > v {
      var n := |s| - 1;
      InsertContents(s[..n], v);
      assert s == s[..n] + [s[n]];
    }
  }

  lemma InsertHas(s: seq<int>, v: int, x: int)
    ensures x in Insert(s, v) <==> x in s || x == v
  {
    InsertContents(s, v);
    hide Insert;
    assert x in multiset(Insert(s, v)) <==> x in multiset(s) || x == v;
  }

  lemma {:induction false} InsertSorts(s: seq<int>, v: int)
    requires Sorted(s)
    ensures Sorted(Insert(s, v))
    decreases |s|
  {
    if s != [] && s[|s| - 1] > v {
      var n := |s| - 1;
      var t := Insert(s[..n], v);
      InsertSorts(s[..n], v);
      assert Insert(s, v) == t + [s[n]];
      hide Insert;
      forall i | 0 <= i < |t| ensures t[i] <= s[n] {
        InsertHas(s[..n], v, t[i]);
      }
    }
  }

  lemma {:induction false} SortedOfSorts(vs: seq<int>)
    ensures Sorted(SortedOf(vs)) && multiset(SortedOf(vs)) == multiset(vs)
    decreases |vs|
  {
    if vs != [] {
      var n := |vs| - 1;
      SortedOfSorts(vs[..n]);
      InsertSorts(SortedOf(vs[..n]), vs[n]);
      InsertContents(SortedOf(vs[..n]), vs[n]);
      assert vs == vs[..n] + [vs[n]];
    }
  }

  lemma {:induction false} InsertCounts(r: Range, s: seq<int>, v: int, b: int)
    requires r.Valid()
    ensures CountUpTo(r, Insert(s, v), b) == CountUpTo(r, s, b) + if r.Index(v) <= b then 1 else 0
    decreases |s|
  {
    var t := Insert(s, v);
    if s == [] || s[|s| - 1] <= v {
      assert t[..|s|] == s;
    } else {
      InsertCounts(r, s[..|s| - 1], v, b);
      assert t[..|s|] == Insert(s[..|s| - 1], v);
    }
  }

  lemma {:induction false} SortedCounts(r: Range, vs: seq<int>, b: int)
    requires r.Valid()
    ensures CountUpTo(r, SortedOf(vs), b) == CountUpTo(r, vs, b)
    decreases |vs|
  {
    if vs != [] {
      var n := |vs| - 1;
      SortedCounts(r, vs[..n], b);
      InsertCounts(r, SortedOf(vs[..n]), vs[n], b);
    }
  }

  /** In a sorted sequence, at least k values lie in bins 0 to b exactly when the k-th does. */
  lemma {:induction false} RankInBins(r: Range, s: seq<int>, k: nat, b: int)
    requires r.Valid() && Sorted(s) && 1 <= k <= |s|
    ensures CountUpTo(r, s, b) >= k <==> r.Index(s[k - 1]) <= b
    decreases |s|
  {
    var n := |s| - 1;
    if r.Index(s[n]) <= b {
      forall v | v in s ensures r.Index(v) <= b {
        IndexMonotone(r, v, s[n]);
      }
      CountUpToAll(r, s, b);
      assert s[k - 1] in s;
    } else if k <= n {
      RankInBins(r, s[..n], k, b);
    }
  }

  /** The rank the lazy median aims for: half the count, rounded down, but at least 1. */
  function Rank(n: nat): (k: nat) {
    if n / 2 >= 1 then n / 2 else 1
  }

  function OrderStatistic(vs: seq<int>, k: nat): int
    requires 1 <= k <= |vs|
  {
    SortedOf(vs)[k - 1]
  }

  /** m is the centre of the first bin up to which half the values lie, the bin of the order statistic of that rank. */
  ghost predicate IsLazyMedian(r: Range, vs: seq<int>, m: int)
    requires r.Valid()
  {
    if vs == [] then m == (r.hi - r.lo) / 2 + r.lo
    else
      IsHalfwayCentre(r, vs, m) &&
      var v := OrderStatistic(vs, Rank(|vs|));
      m == r.Centre(r.Index(v)) && (r.lo <= v < r.hi ==> -(r.step / 2) <= m - v <= r.step / 2)
  }

  lemma BinOfRank(r: Range, vs: seq<int>, k: nat, b: int)
    requires r.Valid() && 1 <= k <= |vs|
    requires CountUpTo(r, vs, b) >= k > CountUpTo(r, vs, b - 1)
    ensures r.Index(OrderStatistic(vs, k)) == b
  {
    var s := SortedOf(vs);
    hide SortedOf, Sorted, CountUpTo, Range.Valid, Range.Index;
    SortedOfSorts(vs);
    SortedCounts(r, vs, b);
    SortedCounts(r, vs, b - 1);
    RankInBins(r, s, k, b);
    RankInBins(r, s, k, b - 1);
  }

  /** The first bin up to which half the values lie is the bin of the order statistic. */
  lemma FirstHalfBin(r: Range, vs: seq<int>, b: nat)
    requires r.Valid() && vs != [] && b < r.NumBins()
    requires CountUpTo(r, vs, b) >= Rank(|vs|) > CountUpTo(r, vs, b - 1)
    ensures IsLazyMedian(r, vs, r.Centre(b))
  {
    BinOfRank(r, vs, Rank(|vs|), b);
    HalfwayFromCounts(r, vs, b);
    CentreUnwrapped(r, b);
    assert IsHalfway(r, vs, b);
    hide IsHalfway, OrderStatistic, CountUpTo, Range.Index, Range.NumBins, Range.Centre;
    var v := OrderStatistic(vs, Rank(|vs|));
    if r.lo <= v < r.hi {
      CentreIsClose(r, v);
    }
  }

  // ---------- BasicHistogram ----------

  class BasicHistogram {
    const r: Range
    const mBins: array<int>
    var mCount: nat
    var mMaxSeen: int
    var mMinSeen: int
    ghost var Values: seq<int32>  // everything inserted since the last reset

    ghost predicate Valid()
      reads this, mBins
    {
      && r.Valid() && mBins.Length == r.NumBins()
      && mCount == |Values|
      && (forall b | 0 <= b < mBins.Length :: mBins[b] == CountAt(r, Values, b))
      && (forall v | v in Values :: mMinSeen <= v <= mMaxSeen)
      && (if Values == [] then mMinSeen == INT_MAX && mMaxSeen == INT_MIN
          else mMinSeen in Values && mMaxSeen in Values)
    }

    constructor (range: Range)
      requires range.Valid()
      ensures Valid() && fresh(mBins) && Values == [] && r == range
    {
      r := range;
      mBins := new int[range.NumBins()](_ => 0);
      mCount, mMinSeen, mMaxSeen := 0, INT_MAX, INT_MIN;
      Values := [];
    }

    /** The bin counts always sum to the number of inserts. */
    lemma BinsSumToCount()
      requires Valid()
      ensures BinSum(mBins[..]) == mCount
    {
      BinSumIsCount(r, Values, mBins[..]);
      CountUpToAll(r, Values, mBins.Length - 1);
    }

    method Reset()
      requires Valid()
      modifies this, mBins
      ensures Valid() && Values == []
    {
      forall b | 0 <= b < mBins.Length {
        mBins[b] := 0;
      }
      mCount, mMinSeen, mMaxSeen := 0, INT_MAX, INT_MIN;
      Values := [];
    }

    method InsertValue(value: int32)
      requires Valid()
      modifies this, mBins
      ensures Valid() && Values == old(Values) + [value]
    {
      hide CountAt;
      mCount := mCount + 1;
      if value < mMinSeen {
        mMinSeen := value;
      }
      if value > mMaxSeen {
        mMaxSeen := value;
      }
      var idx := r.Index(value);
      mBins[idx] := mBins[idx] + 1;
      ghost var vs := Values;
      Values := Values + [value];
      forall b | 0 <= b < mBins.Length ensures mBins[b] == CountAt(r, Values, b) {
        CountAtExtend(r, vs, value, b);
      }
    }

    /** The loop stops inside the bins: dead code after the last bin would fail to verify. */
    method Median() returns (m: int)
      requires Valid()
      ensures IsLazyMedian(r, Values, m)
    {
      if mCount == 0 {
        return (r.hi - r.lo) / 2 + r.lo;
      }
      var sum := 0;
      var halfWay := mCount / 2;
      var idx := r.Index(mMinSeen);
      forall v | v in Values ensures r.Index(v) >= idx {
        IndexMonotone(r, mMinSeen, v);
      }
      CountUpToNone(r, Values, idx - 1);
      ghost var first := idx;
      while idx < mBins.Length
        invariant first <= idx < mBins.Length
        invariant sum == CountUpTo(r, Values, idx - 1) < Rank(mCount)
        invariant sum == 0 || sum < halfWay
      {
        CountUpToStep(r, Values, idx);
        sum := sum + mBins[idx];
        if sum >= halfWay {
          break;
        }
        if idx == mBins.Length - 1 {
          CountUpToAll(r, Values, idx);
        }
        idx := idx + 1;
      }
      if sum == 0 {
        CountOfMember(r, Values, mMinSeen);
      }
      FirstHalfBin(r, Values, idx);
      return r.Centre(idx);
    }
  }

  lemma {:induction false} CountOfMember(r: Range, vs: seq<int>, v: int)
    requires r.Valid() && v in vs
    ensures CountAt(r, vs, r.Index(v)) > 0
    decreases |vs|
  {
    var n := |vs| - 1;
    if v != vs[n] {
      assert v in vs[..n];
      CountOfMember(r, vs[..n], v);
    }
  }

  // ---------- OverlappedHistogram ----------

  class OverlappedHistogram {
    const mFirst: BasicHistogram
    const mSecond: BasicHistogram
    var mActive: BasicHistogram  // aliases mFirst or mSecond
    const mSwapInterval: nat
    var mSwapCount: nat
    ghost var Inserted: seq<int32>  // everything inserted since the last reset
    ghost var Swaps: nat            // how often the two have changed roles since then

    ghost function Repr(): set<object> {
      {this, mFirst, mSecond, mFirst.mBins, mSecond.mBins}
    }

    ghost function Inactive(): BasicHistogram
      reads this
    {
      if mActive == mFirst then mSecond else mFirst
    }

    ghost predicate Wired()
      reads Repr()
    {
      && mFirst != mSecond && mFirst.mBins != mSecond.mBins
      && mFirst.Valid() && mSecond.Valid() && mFirst.r == mSecond.r
      && (mActive == mFirst || mActive == mSecond)
    }

    ghost predicate Valid()
      reads Repr()
    {
      && Wired()
      && Histories(Inserted, mSwapInterval, History(mSwapCount, Swaps, mActive.Values, Inactive().Values))
    }

    constructor (range: Range, swapInterval: nat)
      requires range.Valid()
      ensures Valid() && fresh(Repr()) && mSwapInterval == swapInterval && Inserted == []
      ensures mFirst.r == range
    {
      mFirst := new BasicHistogram(range);
      mSecond := new BasicHistogram(range);
      mActive := mFirst;
      mSwapInterval := swapInterval;
      mSwapCount := 0;
      Inserted := [];
      Swaps := 0;
    }

    /** When the interval is up, forget the active history and let the other histogram take over. */
    method SwapIfDue()
      requires Wired()
      modifies Repr()
      ensures Wired() && Inserted == old(Inserted)
      ensures if old(mSwapCount) == mSwapInterval then
                && mActive.Values == old(Inactive().Values) && Inactive().Values == []
                && mSwapCount == 0 && Swaps == old(Swaps) + 1
              else
                && mActive.Values == old(mActive.Values) && Inactive().Values == old(Inactive().Values)
                && mSwapCount == old(mSwapCount) && Swaps == old(Swaps)
    {
      hide BasicHistogram.Valid;
      if mSwapCount == mSwapInterval {
        mActive.Reset();
        mActive := if mActive == mFirst then mSecond else mFirst;
        mSwapCount := 0;
        Swaps := Swaps + 1;
      }
    }

    method InsertBoth(value: int32)
      requires Wired()
      modifies Repr()
      ensures Wired() && mActive == old(mActive)
      ensures mActive.Values == old(mActive.Values) + [value]
      ensures Inactive().Values == old(Inactive().Values) + [value]
      ensures mSwapCount == old(mSwapCount) + 1 && Swaps == old(Swaps) && Inserted == old(Inserted) + [value]
    {
      hide BasicHistogram.Valid;
      mFirst.InsertValue(value);
      mSecond.InsertValue(value);
      mSwapCount := mSwapCount + 1;
      Inserted := Inserted + [value];
    }

    /** Valid says what each insert keeps: both histories, as Histories describes them. */
    method InsertValue(value: int32)
      requires Valid()
      modifies Repr()
      ensures Valid() && Inserted == old(Inserted) + [value]
    {
      hide BasicHistogram.Valid, Range.Valid, Range.NumBins, CountAt, Histories, LastN, Wired;
      ghost var before := History(mSwapCount, Swaps, mActive.Values, Inactive().Values);
      SwapIfDue();
      ghost var after := History(mSwapCount, Swaps, mActive.Values, Inactive().Values);
      HistoriesInsert(Inserted, mSwapInterval, before, after, value);
      InsertBoth(value);
    }

    method Median() returns (m: int)
      requires Valid()
      ensures IsLazyMedian(mFirst.r, mActive.Values, m)
      ensures 0 < mSwapInterval < |Inserted| ==>
                IsLazyMedian(mFirst.r, LastN(Inserted, mSwapInterval + mSwapCount), m)
    {
      hide BasicHistogram.Valid, Range.Valid, IsLazyMedian, LastN;
      m := mActive.Median();
    }

    method Reset()
      requires Valid()
      modifies Repr()
      ensures Valid() && Inserted == []
    {
      hide BasicHistogram.Valid, Range.Valid, Range.NumBins, CountAt;
      mFirst.Reset();
      mSecond.Reset();
      mSwapCount := 0;
      Inserted := [];
      Swaps := 0;
    }
  }

  /** How far the interval has run, how often the roles have changed, and the two value histories. */
  datatype History = History(count: nat, swaps: nat, active: seq<int32>, inactive: seq<int32>)

  /**
   * What the two histograms hold after the inserts in all. Until there have been more than n, and
   * always when n is 0, both hold everything. Afterwards the active one holds the last n + count and
   * the other the last count, with 1 <= count <= n.
   */
  ghost predicate Histories(all: seq<int32>, n: nat, h: History) {
    if n == 0 || |all| <= n then
      && h.active == all && h.inactive == all
      && (n > 0 ==> h.count == |all| && h.swaps == 0)
      && (n == 0 ==> (h.count == 0 <==> all == []))
    else
      && 1 <= h.count <= n && h.swaps >= 1
      && |all| == h.swaps * n + h.count
      && |all| >= n + h.count
      && h.active == LastN(all, n + h.count)
      && h.inactive == LastN(all, h.count)
  }

  /** The change of roles. */
  ghost predicate SwapStep(n: nat, h: History, h': History) {
    if h.count == n then h' == History(0, h.swaps + 1, h.inactive, [])
    else h' == h
  }

  /** One insert, after the change of roles if the interval is up. */
  lemma HistoriesInsert(all: seq<int32>, n: nat, h: History, h': History, x: int32)
    requires Histories(all, n, h) && SwapStep(n, h, h')
    ensures Histories(all + [x], n, History(h'.count + 1, h'.swaps, h'.active + [x], h'.inactive + [x]))
  {
    LastNAll(all);
    hide LastN;
    if n > 0 && |all| >= n {
      SwapsStep(h.swaps, n, h.swaps * n, (h.swaps + 1) * n);
      LastNExtend(all, x, h'.count);
      if h.count < n {
        LastNExtend(all, x, n + h.count);
      } else {
        LastNExtend(all, x, n);
      }
    }
  }

  lemma SwapsStep(k: nat, n: nat, kn: nat, k1n: nat)
    requires kn == k * n && k1n == (k + 1) * n
    ensures k1n == kn + n
  {
  }

  lemma LastNAll(s: seq<int32>)
    ensures LastN(s, |s|) == s && LastN(s, 0) == []
  {
  }

  lemma LastNExtend(s: seq<int32>, x: int32, n: nat)
    requires n <= |s|
    ensures LastN(s + [x], n + 1) == LastN(s, n) + [x]
  {
  }

  /** The effective history of the active histogram once swapping has begun: between n + 1 and 2n values. */
  lemma HistoryLength(all: seq<int32>, n: nat, h: History)
    requires Histories(all, n, h) && 0 < n < |all|
    ensures n + 1 <= |h.active| <= 2 * n && |h.active| == n + |h.inactive|
    ensures h.count == (|all| - 1) % n + 1
  {
    ModIs(|all| - 1, n, h.swaps, h.count - 1);
  }
}
