/** webrtc_capture_dev.cpp: the size a screen-share frame is scaled to, and the gate in the capture callback. */
module ScreenShare {
  import opened IntArith
  import opened Options

  const WIDTH: nat := 1920
  const HEIGHT: nat := 1080

  datatype Size = Size(w: nat, h: nat)

  /** (1 + k) & ~1 */
  function RoundToEven(k: nat): (e: nat)
    ensures e % 2 == 0 && k <= e <= k + 1
  {
    (k + 1) / 2 * 2
  }

  /**
   * calculateDesiredWH with exact ratios: w/h is compared with 16/9 by cross-multiplying, and the
   * casts to unsigned short drop the fraction.
   */
  function DesiredSize(s: Size): Size {
    if s.w <= WIDTH && s.h <= HEIGHT then s
    else if s.w * HEIGHT == WIDTH * s.h then Size(WIDTH, HEIGHT)
    else if s.w * HEIGHT > WIDTH * s.h then Size(WIDTH, RoundToEven(WIDTH * s.h / s.w))
    else Size(RoundToEven(HEIGHT * s.w / s.h), HEIGHT)
  }

  lemma QuotientBelow(p: nat, q: nat, bound: nat)
    requires q > 0 && p < bound * q
    ensures p / q < bound
    ensures p / q * q <= p < p / q * q + q
  {
    var k := bound - p / q;
    assert k * q == bound * q - p + p % q;
    MultipleAtLeast(k, q);
  }

  /**
   * The result fits the screen, so both casts keep their value; a size that fits already is kept, so a
   * second pass changes nothing.
   */
  lemma DesiredSizeFits(s: Size)
    ensures var d := DesiredSize(s);
            && d.w <= 1920 && d.h <= 1080 && DesiredSize(d) == d
            && (s.w <= 1920 && s.h <= 1080 ==> d == s)
  {
    if s.w > WIDTH || s.h > HEIGHT {
      if s.w * HEIGHT > WIDTH * s.h {
        QuotientBelow(WIDTH * s.h, s.w, HEIGHT);
      } else if s.w * HEIGHT < WIDTH * s.h {
        QuotientBelow(HEIGHT * s.w, s.h, WIDTH);
      }
    }
  }

  /**
   * When a frame is scaled, the side that is relatively longer is exactly the screen's and the other is
   * the one even number less than one below, and at most one above, the value that keeps the aspect
   * ratio (stated without division).
   */
  lemma DesiredSizeKeepsAspect(s: Size)
    requires s.w > 1920 || s.h > 1080
    ensures var d := DesiredSize(s);
            if s.w * 1080 >= 1920 * s.h
            then d.w == 1920 && d.h % 2 == 0 && s.w > 0 && -(s.w as int) < d.h * s.w - 1920 * s.h <= s.w
            else d.h == 1080 && d.w % 2 == 0 && s.h > 0 && -(s.h as int) < d.w * s.h - 1080 * s.w <= s.h
  {
    var d := DesiredSize(s);
    if s.w * HEIGHT > WIDTH * s.h {
      QuotientBelow(WIDTH * s.h, s.w, HEIGHT);
      NearQuotient(WIDTH * s.h, s.w, d.h);
    } else if s.w * HEIGHT < WIDTH * s.h {
      QuotientBelow(HEIGHT * s.w, s.h, WIDTH);
      NearQuotient(HEIGHT * s.w, s.h, d.w);
    }
  }

  lemma NearQuotient(p: nat, q: nat, e: nat)
    requires q > 0 && p / q <= e <= p / q + 1
    ensures -(q as int) < e * q - p <= q
  {
    var k := p / q;
    assert k * q <= p < k * q + q;
    if e == k {
      assert e * q == k * q;
    } else {
      assert e * q == k * q + q;
    }
  }

  /**
   * A scaled frame can lose a whole dimension: exactly when its height is less than 1/1920 of its width,
   * or its width less than 1/1080 of its height.
   */
  lemma DesiredSizeVanishesExactlyWhen(s: Size)
    requires s.w > 0 && s.h > 0
    ensures DesiredSize(s).w == 0 || DesiredSize(s).h == 0
       <==> 1920 * s.h < s.w || 1080 * s.w < s.h
  {
    if s.w > WIDTH || s.h > HEIGHT {
      if s.w * HEIGHT > WIDTH * s.h {
        RoundsToZero(WIDTH * s.h, s.w);
      } else if s.w * HEIGHT < WIDTH * s.h {
        RoundsToZero(HEIGHT * s.w, s.h);
      }
    }
  }

  lemma RoundsToZero(p: nat, q: nat)
    requires q > 0
    ensures RoundToEven(p / q) == 0 <==> p < q
  {
    if p >= q {
      assert p / q >= 1;
    }
  }

  lemma VanishingExample()
    ensures DesiredSize(Size(1921, 1)) == Size(1920, 0)
  {
  }

  // ---------- The gate ----------

  /** The stream was negotiated for the first frame's size, and every frame since has had that size. */
  ghost predicate Steady(negotiated: Size, frames: seq<Size>) {
    frames != [] ==>
      negotiated == DesiredSize(frames[0]) && forall i | 0 <= i < |frames| :: frames[i] == frames[0]
  }

  /** The capture callback of a stream that has a frame scaler. */
  class CaptureCallback {
    var desired: Size
    var changed: Size
    var firstFrame: bool
    var resetInProcess: bool
    ghost const Negotiated: Size
    ghost var Frames: seq<Size>  // the sizes of all frames that came in

    ghost predicate Valid()
      reads this
    {
      && (firstFrame <==> Frames == [])
      && (Frames != [] ==> changed == Frames[|Frames| - 1])
      && (resetInProcess <==> !Steady(Negotiated, Frames))
      && (!resetInProcess ==> desired == Negotiated)
    }

    constructor (negotiated: Size)
      ensures Valid() && Negotiated == negotiated && Frames == []
    {
      desired := negotiated;
      changed := Size(0, 0);
      firstFrame := true;
      resetInProcess := false;
      Negotiated := negotiated;
      Frames := [];
    }

    /**
     * One frame. deviceFound says whether the device list still has this stream's device when the
     * size is refreshed; event is the format change that is published, at the desired size as it was
     * when the device is not found. A frame is delivered exactly
     * while the stream is steady, and then at the desired size of the very first frame.
     */
    method OnIncomingCapturedFrame(frame: Size, deviceFound: bool)
      returns (delivered: Option<Size>, event: Option<Size>)
      requires Valid()
      modifies this
      ensures Valid() && Frames == old(Frames) + [frame]
      ensures delivered.Some? <==> Steady(Negotiated, Frames)
      ensures delivered.Some? ==> frame == Frames[0] && delivered.value == DesiredSize(Frames[0])
      ensures event.Some? <==>
                if old(Frames) == [] then Negotiated != DesiredSize(frame)
                else frame != old(Frames)[|old(Frames)| - 1]
      ensures event.Some? && deviceFound ==> event.value == DesiredSize(frame)
      ensures event.Some? && !deviceFound ==> event.value == old(desired)
      ensures desired == if event.Some? && deviceFound then DesiredSize(frame) else old(desired)
    {
      ghost var before := Frames;
      Frames := Frames + [frame];
      event := None;
      var size := frame;
      var resetStream := false;
      if firstFrame {
        var initial := DesiredSize(frame);
        if initial != desired {
          resetStream := true;
        }
        changed := frame;
        firstFrame := false;
      }
      if changed != frame {
        changed := frame;
        resetStream := true;
        assert before[|before| - 1] == Frames[|before| - 1] != Frames[|before|];
      }
      if resetStream {
        if deviceFound {
          desired := DesiredSize(changed);
        }
        event := Some(desired);
        resetInProcess := true;
      } else {
        size := desired;
      }
      assert Steady(Negotiated, Frames) <==> Steady(Negotiated, before) && !resetStream by {
        SteadyExtend(Negotiated, before, frame);
      }
      if resetInProcess {
        return None, event;
      }
      return Some(size), event;
    }
  }

  lemma SteadyExtend(negotiated: Size, frames: seq<Size>, frame: Size)
    ensures Steady(negotiated, frames + [frame]) <==>
              (&& Steady(negotiated, frames)
               && (if frames == [] then negotiated == DesiredSize(frame) else frame == frames[|frames| - 1]))
  {
    var all := frames + [frame];
    if Steady(negotiated, all) && frames != [] {
      assert all[0] == frames[0];
      forall i | 0 <= i < |frames| ensures frames[i] == frames[0] {
        assert all[i] == all[0];
      }
      assert all[|frames|] == all[0];
    }
  }

  /** Once unsteady, always unsteady: after the first mismatch no later frame is delivered. */
  lemma NeverDeliversAgain(negotiated: Size, frames: seq<Size>, n: nat)
    requires n <= |frames| && !Steady(negotiated, frames[..n])
    ensures !Steady(negotiated, frames)
  {
    if Steady(negotiated, frames) {
      forall i | 0 <= i < n ensures frames[..n][i] == frames[..n][0] {
        assert frames[i] == frames[0];
      }
    }
  }
}
