/** duplicatepacketchecker.h: a 256-packet sliding window over 16-bit sequence numbers. */
module DuplicateChecking {
  import opened IntArith
  import opened SequenceNumbers

  const WINDOW_SIZE: int := 256
  const NEW_STREAM_DELTA: int := -4096

  // ---------- The reference: sets of unbounded indices ----------

  /** What the checker remembers, without wrap-around and without a window. */
  datatype Stream = Fresh | Open(high: int, accepted: set<int>)

  /** The unbounded index of an arrival relative to the highest index so far. */
  function IndexOf(high: int, seqNo: uint16): (i: int)
    ensures i % SEQ_MODULUS == seqNo
  {
    var d := SeqDelta(seqNo, high % SEQ_MODULUS);
    CongruentShift(high, d);
    high + d
  }

  lemma CongruentShift(h: int, d: int)
    ensures (h + d) % SEQ_MODULUS == (h % SEQ_MODULUS + d) % SEQ_MODULUS
  {
    var e := h % SEQ_MODULUS + d;
    ModIs(h + d, SEQ_MODULUS, h / SEQ_MODULUS + e / SEQ_MODULUS, e % SEQ_MODULUS);
  }

  predicate StartsNewStream(st: Stream, seqNo: uint16) {
    st.Open? ==>
      var delta := IndexOf(st.high, seqNo) - st.high;
      delta >= WINDOW_SIZE || delta <= NEW_STREAM_DELTA
  }

  function Accepts(st: Stream, seqNo: uint16): bool {
    StartsNewStream(st, seqNo) ||
    var i := IndexOf(st.high, seqNo);
    i > st.high - WINDOW_SIZE && i !in st.accepted
  }

  function Next(st: Stream, seqNo: uint16): Stream {
    if StartsNewStream(st, seqNo) then Open(seqNo, {seqNo})
    else
      var i := IndexOf(st.high, seqNo);
      if !Accepts(st, seqNo) then st
      else Open(if i > st.high then i else st.high, st.accepted + {i})
  }

  ghost predicate Bounded(st: Stream) {
    st.Open? ==> st.high in st.accepted && forall i | i in st.accepted :: i <= st.high
  }

  // ---------- The checker ----------

  /** mDupeWindow <<= delta */
  method ShiftUp(bits: array<bool>, delta: nat)
    modifies bits
    ensures forall k | 0 <= k < bits.Length :: bits[k] == (k >= delta && old(bits[k - delta]))
  {
    var k := bits.Length;
    while k > 0
      invariant 0 <= k <= bits.Length
      invariant forall j | 0 <= j < k :: bits[j] == old(bits[j])
      invariant forall j | k <= j < bits.Length :: bits[j] == (j >= delta && old(bits[j - delta]))
    {
      k := k - 1;
      bits[k] := k >= delta && bits[k - delta];
    }
  }

  class DuplicatePacketChecker {
    var mDupeWindow: array<bool>
    var mHighestSeqNo: uint16
    var mFirstPacket: bool
    ghost var Model: Stream
    ghost var Received: seq<uint16>  // everything received since construction or the caller's last reset

    /** The window and the highest number say what the open stream st says. */
    ghost predicate Mirrors(high: int, accepted: set<int>)
      reads this, mDupeWindow
    {
      && mDupeWindow.Length == WINDOW_SIZE
      && mHighestSeqNo == high % SEQ_MODULUS
      && (forall k | 0 <= k < WINDOW_SIZE :: mDupeWindow[k] <==> high - k in accepted)
    }

    ghost predicate Valid()
      reads this, mDupeWindow
    {
      && mDupeWindow.Length == WINDOW_SIZE
      && Bounded(Model) && Model == RunOf(Received).st
      && (mFirstPacket <==> Model.Fresh?)
      && (mFirstPacket ==> forall k | 0 <= k < WINDOW_SIZE :: !mDupeWindow[k])
      && (!mFirstPacket ==> Mirrors(Model.high, Model.accepted))
    }

    constructor ()
      ensures Valid() && fresh(mDupeWindow) && Received == [] && mHighestSeqNo == 0
    {
      Received := [];
      mDupeWindow := new bool[WINDOW_SIZE](_ => false);
      mHighestSeqNo := 0;
      mFirstPacket := true;
      Model := Fresh;
    }

    method Reset()
      requires mDupeWindow.Length == WINDOW_SIZE
      modifies this, mDupeWindow
      ensures Valid() && mDupeWindow == old(mDupeWindow) && Model == Fresh && Received == []
      ensures mHighestSeqNo == old(mHighestSeqNo)
    {
      forall k | 0 <= k < WINDOW_SIZE {
        mDupeWindow[k] := false;
      }
      mFirstPacket := true;
      Model, Received := Fresh, [];
    }

    /** The wrapping window refines the reference: same verdict, and Valid ties every bit to an index. */
    /** A newer packet of the same stream: the window moves up by delta and its first bit is set. */
    method ShiftIn(seqNo: uint16, delta: nat, ghost high: int, ghost accepted: set<int>)
      requires mDupeWindow.Length == WINDOW_SIZE && delta > 0
      requires forall k | 0 <= k < WINDOW_SIZE :: mDupeWindow[k] <==> high - k in accepted
      requires forall i | i in accepted :: i <= high
      modifies this`mHighestSeqNo, mDupeWindow
      ensures mHighestSeqNo == seqNo
      ensures forall k | 0 <= k < WINDOW_SIZE :: mDupeWindow[k] <==> high + delta - k in accepted + {high + delta}
    {
      ShiftUp(mDupeWindow, delta);
      mDupeWindow[0] := true;
      mHighestSeqNo := seqNo;
      forall k | 0 <= k < WINDOW_SIZE
        ensures mDupeWindow[k] <==> high + delta - k in accepted + {high + delta}
      {
        if k >= delta {
          assert high + delta - k == high - (k - delta);
        }
      }
    }

    /** A packet of the current stream, delta from the highest number. */
    method TestInStream(seqNo: uint16, delta: int, ghost high: int, ghost accepted: set<int>) returns (isNew: bool)
      requires Mirrors(high, accepted) && delta < WINDOW_SIZE && (high + delta) % SEQ_MODULUS == seqNo
      requires forall i | i in accepted :: i <= high
      modifies this`mHighestSeqNo, mDupeWindow
      ensures isNew <==> delta > -256 && high + delta !in accepted
      ensures Mirrors(if delta > 0 then high + delta else high, accepted + if isNew then {high + delta} else {})
    {
      if delta > 0 {
        ShiftIn(seqNo, delta, high, accepted);
        return true;
      }
      var back := -delta;
      if back < WINDOW_SIZE {
        if mDupeWindow[back] {
          return false;
        }
        mDupeWindow[back] := true;
        return true;
      }
      return false;
    }

    method InsertAndTest(seqNo: uint16) returns (isNew: bool)
      requires Valid()
      modifies this, mDupeWindow
      ensures Valid() && mDupeWindow == old(mDupeWindow)
      ensures isNew == Accepts(old(Model), seqNo) && Model == Next(old(Model), seqNo)
      ensures (|| old(mFirstPacket)
               || SeqDelta(seqNo, old(mHighestSeqNo)) >= 256
               || SeqDelta(seqNo, old(mHighestSeqNo)) <= -4096) ==>
                isNew && Model == Open(seqNo, {seqNo})
      ensures Received == old(Received) + [seqNo] && isNew == RunOf(Received).log[|old(Received)|].accepted
      decreases if mFirstPacket then 0 else 1
    {
      ghost var received := Received;
      RunOfLast(received, seqNo);
      hide RunOf;
      if mFirstPacket {
        mDupeWindow[0] := true;
        mHighestSeqNo := seqNo;
        mFirstPacket := false;
        Model, Received := Open(seqNo, {seqNo}), received + [seqNo];
        return true;
      }
      var delta := SeqDelta(seqNo, mHighestSeqNo);
      ghost var st := Model;
      assert IndexOf(st.high, seqNo) == st.high + delta && (st.high + delta) % SEQ_MODULUS == seqNo;
      hide IndexOf, SeqDelta;
      var isNewStream := delta >= WINDOW_SIZE || delta <= NEW_STREAM_DELTA;
      if isNewStream {
        assert Next(Fresh, seqNo) == Next(st, seqNo) && Accepts(Fresh, seqNo) && Accepts(st, seqNo);
        hide Next, Accepts, StartsNewStream, Mirrors;
        Reset();
        isNew := InsertAndTest(seqNo);
        Received := received + [seqNo];
        return;
      }
      assert Accepts(st, seqNo) <==> delta > -WINDOW_SIZE && st.high + delta !in st.accepted;
      isNew := TestInStream(seqNo, delta, st.high, st.accepted);
      hide Mirrors;
      Model, Received := Next(Model, seqNo), received + [seqNo];
    }
  }

  // ---------- Whole runs ----------

  /** One arrival as the reference saw it: its stream, its index, the highest index before it, the verdict. */
  datatype Arrival = Arrival(stream: nat, index: int, highBefore: int, accepted: bool)

  datatype Run = Run(st: Stream, streams: nat, log: seq<Arrival>)

  function RunOf(seqNos: seq<uint16>): (r: Run)
    ensures |r.log| == |seqNos|
    decreases |seqNos|
  {
    if seqNos == [] then Run(Fresh, 0, [])
    else
      var n := |seqNos| - 1;
      var r, s := RunOf(seqNos[..n]), seqNos[n];
      if StartsNewStream(r.st, s) then
        Run(Next(r.st, s), r.streams + 1, r.log + [Arrival(r.streams + 1, s, s, true)])
      else
        Run(Next(r.st, s), r.streams,
            r.log + [Arrival(r.streams, IndexOf(r.st.high, s), r.st.high, Accepts(r.st, s))])
  }

  lemma RunOfLast(seqNos: seq<uint16>, s: uint16)
    ensures var r, r' := RunOf(seqNos), RunOf(seqNos + [s]);
            && r'.st == Next(r.st, s) && r'.log[|seqNos|].accepted == Accepts(r.st, s)
            && r'.streams == r.streams + if StartsNewStream(r.st, s) then 1 else 0
  {
    assert (seqNos + [s])[..|seqNos|] == seqNos;
  }

  /** The accepted indices of one stream in a log. */
  ghost function AcceptedIn(log: seq<Arrival>, stream: nat): set<int> {
    set k | 0 <= k < |log| && log[k].stream == stream && log[k].accepted :: log[k].index
  }

  lemma AcceptedInExtend(log: seq<Arrival>, a: Arrival, stream: nat)
    ensures AcceptedIn(log + [a], stream)
         == AcceptedIn(log, stream) + (if a.stream == stream && a.accepted then {a.index} else {})
  {
    var log' := log + [a];
    forall i | i in AcceptedIn(log, stream) ensures i in AcceptedIn(log', stream) {
      var k :| 0 <= k < |log| && log[k].stream == stream && log[k].accepted && log[k].index == i;
      assert log'[k] == log[k];
    }
    if a.stream == stream && a.accepted {
      assert log'[|log|] == a;
    }
    forall i | i in AcceptedIn(log', stream)
      ensures i in AcceptedIn(log, stream) || (a.stream == stream && a.accepted && i == a.index)
    {
      var k :| 0 <= k < |log'| && log'[k].stream == stream && log'[k].accepted && log'[k].index == i;
      if k < |log| {
        assert log[k] == log'[k];
      }
    }
  }

  /** The reference's memory is exactly the accepted indices of the current stream. */
  lemma {:induction false} RunInvariant(seqNos: seq<uint16>)
    ensures var r := RunOf(seqNos);
            && Bounded(r.st)
            && (r.st.Fresh? <==> seqNos == [])
            && (r.st.Open? ==> r.st.accepted == AcceptedIn(r.log, r.streams))
            && (forall k | 0 <= k < |r.log| :: 0 < r.log[k].stream <= r.streams)
    decreases |seqNos|
  {
    if seqNos != [] {
      var n := |seqNos| - 1;
      RunInvariant(seqNos[..n]);
      var r0, r := RunOf(seqNos[..n]), RunOf(seqNos);
      AcceptedInExtend(r0.log, r.log[n], r.streams);
      assert r.log == r0.log + [r.log[n]];
      if StartsNewStream(r0.st, seqNos[n]) {
        assert AcceptedIn(r0.log, r.streams) == {};
      }
    }
  }

  lemma {:induction false} LogPrefix(seqNos: seq<uint16>, n: nat)
    requires n <= |seqNos|
    ensures RunOf(seqNos[..n]).log == RunOf(seqNos).log[..n]
    decreases |seqNos|
  {
    if n < |seqNos| {
      var m := |seqNos| - 1;
      LogPrefix(seqNos[..m], n);
      assert seqNos[..m][..n] == seqNos[..n];
      assert RunOf(seqNos).log[..m] == RunOf(seqNos[..m]).log;
    } else {
      assert seqNos[..n] == seqNos;
    }
  }

  /**
   * Why any arrival of any run is rejected: either its index is 256 or more behind the highest,
   * or an earlier arrival of the same stream with the same index was accepted.
   */
  lemma RejectedExactlyWhen(seqNos: seq<uint16>, j: nat)
    requires j < |seqNos|
    ensures var log := RunOf(seqNos).log;
            !log[j].accepted <==>
              || log[j].highBefore - log[j].index >= 256
              || exists i | 0 <= i < j ::
                   log[i].stream == log[j].stream && log[i].index == log[j].index && log[i].accepted
  {
    var log := RunOf(seqNos).log;
    var before := seqNos[..j];
    LogPrefix(seqNos, j + 1);
    LogPrefix(seqNos, j);
    assert seqNos[..j + 1][..j] == before;
    var r0 := RunOf(before);
    RunInvariant(before);
    assert r0.log == log[..j];
    var r1 := RunOf(seqNos[..j + 1]);
    assert log[j] == r1.log[j];
    forall i | 0 <= i < j ensures r0.log[i] == log[i] {
    }
    if StartsNewStream(r0.st, seqNos[j]) {
      assert log[j].accepted && log[j].stream == r0.streams + 1;
    } else {
      assert log[j].stream == r0.streams;
      if log[j].index in r0.st.accepted {
        var i :| 0 <= i < j && log[i].stream == r0.streams && log[i].accepted && log[i].index == log[j].index;
      }
    }
  }

  /** Within a stream no index is ever accepted twice. */
  lemma NoIndexAcceptedTwice(seqNos: seq<uint16>, i: nat, j: nat)
    requires i < j < |seqNos|
    requires var log := RunOf(seqNos).log; log[i].stream == log[j].stream && log[i].index == log[j].index
    ensures var log := RunOf(seqNos).log; !(log[i].accepted && log[j].accepted)
  {
    RejectedExactlyWhen(seqNos, j);
  }

  // ---------- Against the true stream ----------

  function Max(xs: seq<int>): (m: int)
    requires xs != []
    ensures m in xs && forall x | x in xs :: x <= m
    decreases |xs|
  {
    var n := |xs| - 1;
    assert xs == xs[..n] + [xs[n]];
    if n == 0 then xs[0]
    else
      var m := Max(xs[..n]);
      if xs[n] > m then xs[n] else m
  }

  /** Index k lies less than 4096 behind and less than 256 ahead of the highest before it. */
  ghost predicate Continues(xs: seq<int>, k: nat)
    requires 0 < k < |xs|
  {
    -4096 < xs[k] - Max(xs[..k]) < 256
  }

  ghost predicate OneStream(xs: seq<int>) {
    forall k | 0 < k < |xs| :: Continues(xs, k)
  }

  function SeqNos(xs: seq<int>): (s: seq<uint16>)
    ensures |s| == |xs|
  {
    seq(|xs|, k requires 0 <= k < |xs| => xs[k] % SEQ_MODULUS)
  }

  /** The index the reference gives to true index x, when the stream began at x0. */
  function Rebased(x: int, x0: int): int {
    x - x0 + x0 % SEQ_MODULUS
  }

  lemma RebasedCongruent(x: int, x0: int)
    ensures Rebased(x, x0) % SEQ_MODULUS == x % SEQ_MODULUS
  {
    ModIs(Rebased(x, x0), SEQ_MODULUS, x / SEQ_MODULUS - x0 / SEQ_MODULUS, x % SEQ_MODULUS);
  }

  /** After any number of wraps, indices are true indices up to a constant. */
  lemma TrueIndex(high: int, x: int, x0: int)
    requires -0x8000 <= x - high < 0x8000
    ensures IndexOf(Rebased(high, x0), x % SEQ_MODULUS) == Rebased(x, x0)
  {
    RebasedCongruent(high, x0);
    SeqDeltaExact(x, high);
  }

  /** The remembered set, in terms of the true stream: everything that came, up to what was too old on arrival. */
  ghost predicate Remembers(st: Stream, xs: seq<int>) {
    xs != [] &&
    var x0, high := xs[0], Max(xs);
    && st.Open?
    && st.high == Rebased(high, x0)
    && (forall x :: Rebased(x, x0) in st.accepted ==> x in xs)
    && (forall x | x in xs && x > high - WINDOW_SIZE :: Rebased(x, x0) in st.accepted)
  }

  lemma RememberOne(st: Stream, xs: seq<int>, x: int)
    requires Remembers(st, xs)
    requires NEW_STREAM_DELTA < x - Max(xs) < WINDOW_SIZE
    ensures Remembers(Next(st, x % SEQ_MODULUS), xs + [x])
  {
    TrueIndex(Max(xs), x, xs[0]);
    MaxExtend(xs, x);
    var st', ys := Next(st, x % SEQ_MODULUS), xs + [x];
    assert ys[0] == xs[0] && x in ys;
    forall y | Rebased(y, xs[0]) in st'.accepted ensures y in ys {
      if Rebased(y, xs[0]) in st.accepted {
        assert y in xs;
      }
    }
  }

  lemma MaxExtend(xs: seq<int>, x: int)
    requires xs != []
    ensures Max(xs + [x]) == if x > Max(xs) then x else Max(xs)
  {
    assert (xs + [x])[..|xs|] == xs;
  }

  lemma OneStreamPrefix(xs: seq<int>, n: nat)
    requires n <= |xs| && OneStream(xs)
    ensures OneStream(xs[..n])
  {
    forall k: nat | 0 < k < n ensures Continues(xs[..n], k) {
      assert xs[..n][..k] == xs[..k];
      assert Continues(xs, k);
    }
  }

  lemma RememberFirst(x: int)
    ensures Remembers(Next(Fresh, x % SEQ_MODULUS), [x])
  {
  }

  lemma {:induction false} TracksTrueStream(xs: seq<int>)
    requires xs != [] && OneStream(xs)
    ensures Remembers(RunOf(SeqNos(xs)).st, xs)
    decreases |xs|
  {
    var n := |xs| - 1;
    var before, last := SeqNos(xs[..n]), xs[n] % SEQ_MODULUS;
    assert xs == xs[..n] + [xs[n]] && SeqNos(xs) == before + [last];
    RunOfLast(before, last);
    if n == 0 {
      assert before == [] && RunOf(before).st == Fresh;
      hide RunOf;
      RememberFirst(xs[0]);
    } else {
      hide RunOf, Next;
      OneStreamPrefix(xs, n);
      TracksTrueStream(xs[..n]);
      assert Continues(xs, n);
      RememberOne(RunOf(before).st, xs[..n], xs[n]);
    }
  }

  /** After what came before, a packet with true index x begins a new stream. */
  ghost predicate Begins(before: seq<uint16>, x: int) {
    RunOf(before + [x % SEQ_MODULUS]).streams > RunOf(before).streams
  }

  /** An arrival that starts a new stream makes the checker forget everything before it. */
  lemma {:induction false} StreamRestarts(before: seq<uint16>, stream: seq<uint16>)
    requires stream != [] && RunOf(before + [stream[0]]).streams > RunOf(before).streams
    ensures RunOf(before + stream).st == RunOf(stream).st
    decreases |stream|
  {
    var n := |stream| - 1;
    assert before + stream == (before + stream[..n]) + [stream[n]] && stream == stream[..n] + [stream[n]];
    RunOfLast(before + stream[..n], stream[n]);
    RunOfLast(stream[..n], stream[n]);
    if n > 0 {
      StreamRestarts(before, stream[..n]);
    } else {
      RunOfLast(before, stream[0]);
      assert before + stream[..n] == before && stream[..n] == [];
    }
  }

  /** What the checker remembers of a stream that began after other packets. */
  lemma RemembersStream(before: seq<uint16>, xs: seq<int>)
    requires xs != [] && OneStream(xs) && Begins(before, xs[0])
    ensures Remembers(RunOf(before + SeqNos(xs)).st, xs)
  {
    hide OneStream, Remembers, RunOf;
    TracksTrueStream(xs);
    StreamRestarts(before, SeqNos(xs));
  }

  /**
   * Whatever was received before, fed from a new stream's first packet on (the very first packet is
   * one) the 16-bit images of any true index stream, the checker takes the next arrival for the first
   * packet of another stream exactly when it is 256 or more ahead of the highest or 4096 or more
   * behind it, and then accepts it and remembers nothing else. It accepts any other arrival exactly
   * when that is less than 256 behind the highest and has not arrived before.
   */
  lemma NextOnTrueStream(before: seq<uint16>, xs: seq<int>, x: int)
    requires xs != [] && OneStream(xs) && Begins(before, xs[0])
    requires -0x8000 <= x - Max(xs) < 0x8000
    ensures var seqNos, s := before + SeqNos(xs), x % 0x1_0000;
            var r, r' := RunOf(seqNos), RunOf(seqNos + [s]);
            var isNew := r'.log[|seqNos|].accepted;
            if x - Max(xs) >= 256 || x - Max(xs) <= -4096
            then r'.streams == r.streams + 1 && isNew && r'.st == Open(s, {s})
            else r'.streams == r.streams && (isNew <==> x > Max(xs) - 256 && x !in xs)
  {
    RemembersStream(before, xs);
    RunOfLast(before + SeqNos(xs), x % SEQ_MODULUS);
    hide RunOf;
    TrueIndex(Max(xs), x, xs[0]);
  }

  /** The same verdict, also for the first packet of the stream. */
  lemma VerdictOnTrueStream(before: seq<uint16>, xs: seq<int>, x: int)
    requires OneStream(xs + [x]) && Begins(before, (xs + [x])[0])
    ensures Accepts(RunOf(before + SeqNos(xs)).st, x % SEQ_MODULUS)
       <==> xs == [] || (x > Max(xs) - 256 && x !in xs)
  {
    if xs == [] {
      assert before + SeqNos(xs) == before;
      RunOfLast(before, x % SEQ_MODULUS);
    } else {
      var ys := xs + [x];
      assert ys[..|xs|] == xs;
      OneStreamPrefix(ys, |xs|);
      assert Continues(ys, |xs|);
      RemembersStream(before, xs);
      hide RunOf;
      TrueIndex(Max(xs), x, xs[0]);
    }
  }
}
