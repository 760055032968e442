/** Sliding windows: "the last n values", and the array that stores them in place. */
module Windows {

  /** The last n elements of s, or all of s when it is shorter. */
  function LastN<T>(s: seq<T>, n: nat): (w: seq<T>)
    ensures |w| == if |s| <= n then |s| else n
  {
    if |s| <= n then s else s[|s| - n..]
  }

  /** A window can be maintained from the previous window alone. */
  lemma LastNPush<T>(s: seq<T>, x: T, n: nat)
    ensures LastN(s + [x], n) == LastN(LastN(s, n) + [x], n)
  {
    if |s| > n {
      assert s + [x] == s[..|s| - n] + (s[|s| - n..] + [x]);
    }
  }

  /** Slots hold the window w, oldest first, and next is the slot to be overwritten. */
  ghost predicate Ring<T>(slots: seq<T>, next: nat, w: seq<T>) {
    && |w| <= |slots|
    && next < |slots|
    && (|w| < |slots| ==> next == |w| && slots[..next] == w)
    && (|w| == |slots| ==> slots[next..] + slots[..next] == w)
  }

  /** The cursor after one write. */
  function Advance(next: nat, size: nat): nat {
    if next + 1 == size then 0 else next + 1
  }

  /** Overwriting slot next and advancing the cursor slides the window by one. */
  lemma RingPush<T>(slots: seq<T>, next: nat, w: seq<T>, x: T)
    requires Ring(slots, next, w)
    ensures |w| == |slots| ==> slots[next] == w[0]
    ensures Ring(slots[next := x], Advance(next, |slots|), LastN(w + [x], |slots|))
  {
    var s' := slots[next := x];
    if |w| < |slots| {
      assert s'[..next + 1] == w + [x];
      if next + 1 == |slots| {
        assert s'[0..] + s'[..0] == w + [x];
      }
    } else {
      assert LastN(w + [x], |slots|) == w[1..] + [x];
      if next + 1 == |slots| {
        assert s'[0..] + s'[..0] == w[1..] + [x];
      } else {
        assert s'[next + 1..] + s'[..next + 1] == w[1..] + [x];
      }
    }
  }
}
