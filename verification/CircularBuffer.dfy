/** circularbuffer.h: a push-only buffer that keeps the most recent elements. */
module CircularBuffers {
  import opened Options
  import opened Windows

  /** The vector read from the tail on: the oldest element first. */
  ghost function ViewFrom<T>(b: seq<T>, tail: nat): (v: seq<T>)
    requires tail <= |b|
    ensures |v| == |b|
  {
    b[tail..] + b[..tail]
  }

  lemma Append<T>(b: seq<T>, x: T, capacity: nat)
    requires |b| < capacity
    ensures ViewFrom(b + [x], 0) == LastN(ViewFrom(b, 0) + [x], capacity)
  {
  }

  /** Overwriting the tail slot drops the oldest element and appends the new one. */
  lemma OverwriteTail<T>(b: seq<T>, tail: nat, x: T)
    requires tail < |b|
    ensures ViewFrom(b[tail := x], Advance(tail, |b|)) == LastN(ViewFrom(b, tail) + [x], |b|)
  {
    RingPush(b, tail, ViewFrom(b, tail), x);
  }

  class CircularBuffer<T> {
    var mBuffer: seq<T>  // the std::vector
    var mCapacity: nat
    var mTail: nat
    ghost var Pushed: seq<T>  // everything pushed since the last clear

    ghost predicate Valid()
      reads this
    {
      && |mBuffer| <= mCapacity
      && (|mBuffer| < mCapacity ==> mTail == 0)
      && (if mCapacity == 0 then mTail == 0 else mTail < mCapacity)
      && View() == LastN(Pushed, mCapacity)
    }

    /** The user's view, oldest element first; ConvertIndex finds its elements. */
    ghost function View(): (v: seq<T>)
      requires mTail <= |mBuffer|
      reads this
    {
      ViewFrom(mBuffer, mTail)
    }

    constructor (capacity: nat)
      ensures Valid() && mCapacity == capacity && Pushed == [] && View() == []
    {
      mBuffer, mCapacity, mTail, Pushed := [], capacity, 0, [];
    }

    /** The element of the view that idx stands for: from the capacity on, counting starts again at the oldest. */
    ghost function Seen(idx: nat): nat
      reads this
    {
      if idx < mCapacity then idx else idx - mCapacity
    }

    /** How many indices from mCapacity on fall on elements: those before the vector's end, without a second wrap. */
    ghost function Overrun(): nat
      requires mTail <= |mBuffer|
      reads this
    {
      |mBuffer| - mTail
    }

    /** The source asserts that idx is below the capacity; this is the code without that assertion. */
    method ConvertIndex(idx: nat) returns (realIdx: nat)
      requires Valid()
      ensures idx < mCapacity ==> realIdx < mCapacity
      ensures realIdx < |mBuffer| <==> idx < |View()| || mCapacity <= idx < mCapacity + Overrun()
      ensures realIdx < |mBuffer| ==> mBuffer[realIdx] == View()[Seen(idx)]
    {
      realIdx := idx + mTail;
      if realIdx >= mCapacity {
        realIdx := realIdx - mCapacity;
      }
    }

    method Clear()
      requires Valid()
      modifies this
      ensures Valid() && Pushed == [] && View() == [] && mCapacity == old(mCapacity)
    {
      mBuffer := [];
      mTail := 0;
      Pushed := [];
    }

    method ClearAndSetCapacity(capacity: nat)
      requires Valid()
      modifies this
      ensures Valid() && Pushed == [] && View() == [] && mCapacity == capacity
    {
      Clear();
      mCapacity := capacity;
    }

    method PushBack(elem: T)
      requires Valid()
      modifies this
      ensures Valid() && mCapacity == old(mCapacity)
      ensures Pushed == old(Pushed) + [elem]
      ensures View() == LastN(old(View()) + [elem], mCapacity)
    {
      LastNPush(Pushed, elem, mCapacity);
      Pushed := Pushed + [elem];
      if mCapacity == 0 {
        return;
      }
      hide LastN, ViewFrom;
      if |mBuffer| < mCapacity {
        Append(mBuffer, elem, mCapacity);
        mBuffer := mBuffer + [elem];
      } else {
        OverwriteTail(mBuffer, mTail, elem);
        mBuffer := mBuffer[mTail := elem];
        mTail := mTail + 1;
        if mTail == mCapacity {
          mTail := 0;
        }
      }
    }

    method Front() returns (x: T)
      requires Valid() && |mBuffer| > 0
      ensures x == View()[0] == LastN(Pushed, mCapacity)[0]
    {
      x := mBuffer[mTail];
    }

    method Back() returns (x: T)
      requires Valid() && |mBuffer| > 0
      ensures |Pushed| > 0 && x == View()[|View()| - 1] == Pushed[|Pushed| - 1]
    {
      var i := ConvertIndex(|mBuffer| - 1);
      x := mBuffer[i];
    }

    /**
     * The checked accessor. Below the capacity it throws exactly past the stored elements; from the
     * capacity on, with the assertion compiled out, it answers from the oldest elements again until
     * the vector's end, so at(mCapacity) of a buffer that holds anything is its front.
     */
    method At(idx: nat) returns (r: Option<T>)
      requires Valid()
      ensures r.Some? <==> idx < |View()| || mCapacity <= idx < mCapacity + Overrun()
      ensures r.Some? ==> r.value == View()[Seen(idx)]
      ensures (r.Some? <==> idx < |View()|) <==> (idx < mCapacity || idx >= mCapacity + Overrun())
      ensures idx == mCapacity && |View()| > 0 ==> r == Some(View()[0])
    {
      var i := ConvertIndex(idx);
      r := if i < |mBuffer| then Some(mBuffer[i]) else None;
    }
  }
}
