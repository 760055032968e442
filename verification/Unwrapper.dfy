/** webrtc_common.h: SequenceNumberUnwrapper. */
module Unwrapping {
  import opened IntArith
  import opened SequenceNumbers

  const NONE: int := -1  // last_seq_ before the first packet

  /** UnwrapWithoutUpdate, branch by branch. */
  function Unwrapped(last: int, seqNo: uint16): int {
    if last == NONE then seqNo
    else
      var cropped := last % SEQ_MODULUS;
      var delta := seqNo - cropped;
      if IsNewer(seqNo, cropped, SEQ_MODULUS) then
        last + (if delta < 0 then delta + SEQ_MODULUS else delta)
      else if delta > 0 && last + delta - SEQ_MODULUS >= 0 then last + delta - SEQ_MODULUS
      else last + delta
  }

  class SequenceNumberUnwrapper {
    var last_seq: int

    constructor ()
      ensures last_seq == NONE
    {
      last_seq := NONE;
    }

    method UnwrapWithoutUpdate(sequenceNumber: uint16) returns (r: int)
      ensures r == Unwrapped(last_seq, sequenceNumber)
      ensures last_seq >= NONE ==> IsNearest(last_seq, sequenceNumber, r)
    {
      if last_seq >= NONE {
        UnwrapsToNearest(last_seq, sequenceNumber);
      }
      if last_seq == NONE {
        return sequenceNumber;
      }
      var croppedLast: uint16 := last_seq % SEQ_MODULUS;
      var delta := sequenceNumber - croppedLast;
      if IsNewer(sequenceNumber, croppedLast, SEQ_MODULUS) {
        if delta < 0 {
          delta := delta + SEQ_MODULUS;
        }
      } else if delta > 0 && last_seq + delta - SEQ_MODULUS >= 0 {
        delta := delta - SEQ_MODULUS;
      }
      return last_seq + delta;
    }

    method UpdateLast(lastSequence: int)
      modifies this
      ensures last_seq == lastSequence
    {
      last_seq := lastSequence;
    }

    method Unwrap(sequenceNumber: uint16) returns (r: int)
      modifies this
      ensures r == Unwrapped(old(last_seq), sequenceNumber)
      ensures last_seq == r
      ensures old(last_seq) >= NONE ==> IsNearest(old(last_seq), sequenceNumber, r)
    {
      r := UnwrapWithoutUpdate(sequenceNumber);
      UpdateLast(r);
    }
  }

  function Abs(x: int): nat {
    if x < 0 then -x else x
  }

  /**
   * What unwrapping means without wrap-around arithmetic: of the non-negative numbers
   * congruent to the input, r is the one nearest to the last value; of two equally near,
   * the larger exactly when the input is above the wrapped last value.
   */
  ghost predicate IsNearest(last: int, seqNo: uint16, r: int) {
    && r >= 0
    && r % SEQ_MODULUS == seqNo
    && (last == NONE ==> r == seqNo)
    && (last != NONE ==>
          forall c: nat | c % SEQ_MODULUS == seqNo && c != r ::
            || Abs(r - last) < Abs(c - last)
            || (Abs(r - last) == Abs(c - last) && (r > c <==> seqNo > last % SEQ_MODULUS)))
  }

  lemma UnwrappedShape(last: int, seqNo: uint16) returns (delta: int)
    requires last >= 0
    ensures Unwrapped(last, seqNo) == last + delta
    ensures (last + delta) % SEQ_MODULUS == seqNo
    ensures last + delta >= 0
    ensures -0x8000 <= delta < SEQ_MODULUS
    ensures delta > 0x8000 ==> last + delta < SEQ_MODULUS
    ensures Abs(delta) == 0x8000 ==> (delta > 0 <==> seqNo > last % SEQ_MODULUS)
  {
    var cropped := last % SEQ_MODULUS;
    var d := seqNo - cropped;
    ModSmall(d, SEQ_MODULUS);
    delta := Unwrapped(last, seqNo) - last;
    var q := last / SEQ_MODULUS;
    assert last == q * SEQ_MODULUS + cropped && q >= 0;
    if delta == d {
      ModIs(last + delta, SEQ_MODULUS, q, seqNo);
    } else if delta == d + SEQ_MODULUS {
      ModIs(last + delta, SEQ_MODULUS, q + 1, seqNo);
    } else {
      ModIs(last + delta, SEQ_MODULUS, q - 1, seqNo);
    }
  }

  /** The wrapping code computes the nearest non-negative congruent number, for every input. */
  lemma UnwrapsToNearest(last: int, seqNo: uint16)
    requires last >= NONE
    ensures IsNearest(last, seqNo, Unwrapped(last, seqNo))
  {
    var r := Unwrapped(last, seqNo);
    if last != NONE {
      var delta := UnwrappedShape(last, seqNo);
      forall c: nat | c % SEQ_MODULUS == seqNo && c != r
        ensures Abs(r - last) < Abs(c - last)
             || (Abs(r - last) == Abs(c - last) && (r > c <==> seqNo > last % SEQ_MODULUS))
      {
        if -SEQ_MODULUS < c - r < SEQ_MODULUS {
          CongruentClose(c, r, SEQ_MODULUS);
        }
      }
    }
  }

  /** Nearest determines the result, so it specifies Unwrapped completely. */
  lemma NearestIsUnique(last: int, seqNo: uint16, r1: int, r2: int)
    requires last >= NONE && IsNearest(last, seqNo, r1) && IsNearest(last, seqNo, r2)
    ensures r1 == r2
  {
  }

  function UnwrapRun(last: int, seqNos: seq<uint16>): (out: seq<int>)
    ensures |out| == |seqNos|
    decreases |seqNos|
  {
    if seqNos == [] then []
    else
      var x := Unwrapped(last, seqNos[0]);
      [x] + UnwrapRun(x, seqNos[1..])
  }

  /** Wrapping a stream of true indices to 16 bits. */
  function Wrapped(xs: seq<nat>): seq<uint16> {
    seq(|xs|, i requires 0 <= i < |xs| => xs[i] % SEQ_MODULUS)
  }

  predicate Near(x: int, y: int) {
    Abs(x - y) < 0x8000
  }

  /** Neighbouring true indices are less than half a cycle apart. */
  ghost predicate SmallSteps(xs: seq<nat>) {
    forall i | 0 < i < |xs| :: Near(xs[i], xs[i - 1])
  }

  lemma {:induction false} UnwrapFrom(last: nat, xs: seq<nat>)
    requires SmallSteps([last] + xs)
    ensures UnwrapRun(last, Wrapped(xs)) == xs
    decreases |xs|
  {
    if xs != [] {
      var x, xs' := xs[0], [last] + xs;
      assert Near(xs'[1], xs'[0]);
      UnwrapsToNearest(last, x % SEQ_MODULUS);
      forall i | 0 < i < |xs| ensures Near(xs[i], xs[i - 1]) {
        assert Near(xs'[i + 1], xs'[i]);
      }
      assert Unwrapped(last, x % SEQ_MODULUS) == x by {
        var r := Unwrapped(last, x % SEQ_MODULUS);
        if r != x {
          assert Abs(r - last) <= Abs(x - last);
          CongruentClose(r, x, SEQ_MODULUS);
        }
      }
      assert [x] + xs[1..] == xs;
      assert Wrapped(xs)[1..] == Wrapped(xs[1..]);
      UnwrapFrom(x, xs[1..]);
    }
  }

  /** Wrapping then unwrapping a stream is the identity when it starts in the first cycle and steps are small. */
  lemma UnwrapRoundTrip(xs: seq<nat>)
    requires |xs| > 0 ==> xs[0] < SEQ_MODULUS
    requires SmallSteps(xs)
    ensures UnwrapRun(NONE, Wrapped(xs)) == xs
  {
    if xs != [] {
      ModSmall(xs[0], SEQ_MODULUS);
      assert [xs[0]] + xs[1..] == xs;
      assert Wrapped(xs)[1..] == Wrapped(xs[1..]);
      UnwrapFrom(xs[0], xs[1..]);
    }
  }

  /** Whatever arrives, every output is non-negative and congruent to its input. */
  lemma {:induction false} UnwrapRunSound(last: int, seqNos: seq<uint16>)
    requires last >= NONE
    ensures var out := UnwrapRun(last, seqNos);
            forall i | 0 <= i < |out| :: out[i] >= 0 && out[i] % SEQ_MODULUS == seqNos[i]
    decreases |seqNos|
  {
    if seqNos != [] {
      var x := Unwrapped(last, seqNos[0]);
      UnwrapsToNearest(last, seqNos[0]);
      UnwrapRunSound(x, seqNos[1..]);
      var out := UnwrapRun(last, seqNos);
      forall i | 0 <= i < |out| ensures out[i] >= 0 && out[i] % SEQ_MODULUS == seqNos[i] {
        if i > 0 {
          assert out[i] == UnwrapRun(x, seqNos[1..])[i - 1];
          assert seqNos[i] == seqNos[1..][i - 1];
        }
      }
    }
  }
}
