/**
 * The timing part of `render_gif`: the directives are completed into a
 * frame rate, a clock range, a frame range, a time-scaling factor and a clip
 * duration.
 *
 * Numbers are reals, and each division by zero in the timing arithmetic is
 * the error `ZeroDivision`.
 */
module Timing {
  import opened Wrappers
  import opened Text
  import opened Directives

  /** The resolved timing the clip is built from. */
  datatype Timing = Timing(
    fps: real,
    initialClock: real,
    finalClock: real,
    initialFrame: real,
    finalFrame: real,
    timeScaling: real,
    duration: real)

  /** The divisions of the timing arithmetic that meet a zero divisor. */
  predicate DividesByZero(c: ClockArgs) {
    if c.fps.Some? && c.finalClock.Some? && c.finalFrame.Some? then
      c.finalClock.value == c.initialClock || c.finalFrame.value == c.initialFrame || c.fps.value == 0.0
    else if c.fps.None? then
      c.finalClock.Some? && c.finalFrame.Some? && c.finalFrame.value == c.initialFrame
    else
      c.finalClock.None? && c.finalFrame.Some? && c.fps.value == 0.0
  }

  /** A quotient by a nonzero divisor is zero exactly when the dividend is. */
  lemma QuotientIsZero(a: real, b: real)
    requires b != 0.0
    ensures a / b == 0.0 <==> a == 0.0
  {
    assert a / b * b == a;
  }

  /** Dividing by a factor that equals 1 changes nothing. */
  lemma DivideByOne(a: real, b: real)
    requires b == 1.0
    ensures a / b == a
  {
  }

  /**
   * The resolution as written, by the shape of what was supplied: all three of
   * fps, final clock and final frame give a time-scaling factor; otherwise the
   * missing one is derived and the factor is 1.
   */
  function Resolution(c: ClockArgs): (r: Result<Timing, Error>)
  {
    var ic, if0 := c.initialClock, c.initialFrame;
    if c.fps.Some? && c.finalClock.Some? && c.finalFrame.Some? then
      var fps, fc, ff := c.fps.value, c.finalClock.value, c.finalFrame.value;
      if fc == ic || ff == if0 || fps == 0.0 then Err(ZeroDivision)
      else Ok(ScaledTiming(fps, ic, fc, if0, ff))
    else if c.fps.None? then
      if c.finalClock.None? || c.finalFrame.None? then Err(FpsMustBeSet)
      else
        var fc, ff := c.finalClock.value, c.finalFrame.value;
        if ff == if0 then Err(ZeroDivision)
        else Ok(Timing((fc - ic) / (ff - if0), ic, fc, if0, ff, 1.0, fc - ic))
    else if c.finalClock.None? then
      if c.finalFrame.None? then Err(FinalClockMustBeSet)
      else
        var fps, ff := c.fps.value, c.finalFrame.value;
        if fps == 0.0 then Err(ZeroDivision)
        else
          var fc := ic + (ff - if0) / fps;
          Ok(Timing(fps, ic, fc, if0, ff, 1.0, fc - ic))
    else
      var fps, fc := c.fps.value, c.finalClock.value;
      Ok(Timing(fps, ic, fc, if0, if0 + (fc - ic) * fps, 1.0, fc - ic))
  }

  /**
   * The three configuration errors: fps missing with either final value
   * missing; fps present with both final values missing; and the final-frame
   * error, which the earlier steps make unreachable. Division by zero occurs
   * exactly at the divisions `DividesByZero` lists.
   */
  lemma ResolutionErrors(c: ClockArgs)
    ensures var r := Resolution(c);
      && (c.fps.None? && (c.finalClock.None? || c.finalFrame.None?) ==> r == Err(FpsMustBeSet))
      && (c.fps.Some? && c.finalClock.None? && c.finalFrame.None? ==> r == Err(FinalClockMustBeSet))
      && r != Err(FinalFrameMustBeSet)
      && (r == Err(ZeroDivision) <==> DividesByZero(c))
      && (r.Err? ==> r.error == FpsMustBeSet || r.error == FinalClockMustBeSet || r.error == ZeroDivision)
  {
  }

  /** A successful resolution keeps every supplied value and fills in the missing one by its formula. */
  lemma ResolutionFillsIn(c: ClockArgs)
    requires Resolution(c).Ok?
    ensures var t := Resolution(c).value;
      && t.initialClock == c.initialClock && t.initialFrame == c.initialFrame
      && (c.fps.Some? ==> t.fps == c.fps.value)
      && (c.finalClock.Some? ==> t.finalClock == c.finalClock.value)
      && (c.finalFrame.Some? ==> t.finalFrame == c.finalFrame.value)
      && (c.fps.None? ==> t.fps == (t.finalClock - c.initialClock) / (t.finalFrame - c.initialFrame))
      && (c.finalClock.None? ==> t.finalClock == c.initialClock + (t.finalFrame - c.initialFrame) / t.fps)
      && (c.finalFrame.None? ==> t.finalFrame == c.initialFrame + (t.finalClock - c.initialClock) * t.fps)
  {
  }

  /**
   * The time-scaling factor is 1 unless fps, final clock and final frame were
   * all supplied, when it is fps over the frame rate the clock range implies;
   * it is never zero, and the duration is the clock range divided by it.
   */
  lemma ResolutionScaling(c: ClockArgs)
    requires Resolution(c).Ok?
    ensures var t := Resolution(c).value;
      && t.timeScaling != 0.0
      && (!(c.fps.Some? && c.finalClock.Some? && c.finalFrame.Some?) ==> t.timeScaling == 1.0)
      && (c.fps.Some? && c.finalClock.Some? && c.finalFrame.Some? ==>
            t.timeScaling == c.fps.value / ((c.finalFrame.value - c.initialFrame) / (c.finalClock.value - c.initialClock)))
      && t.duration == (t.finalClock - t.initialClock) / t.timeScaling
  {
  }

  /** `a / b` undone by multiplying with `b`. */
  lemma DivMul(a: real, b: real)
    requires b != 0.0
    ensures a / b * b == a
  {
  }

  /**
   * With all three of fps, clock span `d` and frame span `n` supplied, the
   * clip lasts `n / fps` and its clock advances by `d`.
   */
  lemma ScaledDuration(fps: real, d: real, n: real)
    requires fps != 0.0 && d != 0.0 && n != 0.0
    ensures var s := fps / (n / d);
      && s != 0.0 && d / s * fps == n && d / s * s == d
  {
    var w := n / d;
    DivMul(n, d);
    assert w != 0.0;
    var s := fps / w;
    DivMul(fps, w);
    assert s != 0.0;
    DivMul(d, s);
    var t := d / s;
    calc {
      t * fps;
      t * (s * w);
      (t * s) * w;
      d * w;
      n;
    }
  }

  /** Playing the clip at `fps` for `duration` shows exactly the frame range. */
  predicate ShowsFrameRange(t: Timing) {
    t.duration * t.fps == t.finalFrame - t.initialFrame
  }

  /** The scaled clock runs from the initial to the final clock over the clip. */
  predicate SpansClockRange(t: Timing) {
    t.initialClock + t.duration * t.timeScaling == t.finalClock
  }

  /** A resolved timing is consistent when it shows the frame range and spans the clock range. */
  predicate Consistent(t: Timing) {
    ShowsFrameRange(t) && SpansClockRange(t)
  }

  /** The timing when fps, final clock and final frame are all supplied. */
  function ScaledTiming(fps: real, ic: real, fc: real, if0: real, ff: real): Timing
    requires fc != ic && ff != if0 && fps != 0.0
  {
    var scaling := fps / ((ff - if0) / (fc - ic));
    ScaledDuration(fps, fc - ic, ff - if0);
    Timing(fps, ic, fc, if0, ff, scaling, (fc - ic) / scaling)
  }

  /** Scaling keeps the timing consistent. */
  lemma ScaledTimingConsistent(fps: real, ic: real, fc: real, if0: real, ff: real)
    requires fc != ic && ff != if0 && fps != 0.0
    ensures Consistent(ScaledTiming(fps, ic, fc, if0, ff))
  {
    ScaledDuration(fps, fc - ic, ff - if0);
  }

  /**
   * The resolution as evidently intended: the same as `Resolution` except that
   * a missing frame rate is derived as frames per unit of clock, the rate the
   * time-scaling step and the final-clock and final-frame formulas use.
   */
  function IntendedResolution(c: ClockArgs): (r: Result<Timing, Error>) {
    if c.fps.None? && c.finalClock.Some? && c.finalFrame.Some? then
      var ic, fc, if0, ff := c.initialClock, c.finalClock.value, c.initialFrame, c.finalFrame.value;
      if fc == ic then Err(ZeroDivision)
      else Ok(Timing((ff - if0) / (fc - ic), ic, fc, if0, ff, 1.0, fc - ic))
    else Resolution(c)
  }

  /**
   * Apart from deriving a missing frame rate, the intended resolution is the one
   * as written; when it derives the rate, it fails exactly when the clock range
   * is empty and otherwise keeps everything but the rate.
   */
  lemma IntendedResolutionDiffers(c: ClockArgs)
    ensures !(c.fps.None? && c.finalClock.Some? && c.finalFrame.Some?) ==>
              IntendedResolution(c) == Resolution(c)
    ensures c.fps.None? && c.finalClock.Some? && c.finalFrame.Some? ==>
              (IntendedResolution(c) == Err(ZeroDivision) <==> c.finalClock.value == c.initialClock)
    ensures c.fps.None? && IntendedResolution(c).Ok? ==>
              IntendedResolution(c).value.fps
              == (c.finalFrame.value - c.initialFrame) / (c.finalClock.value - c.initialClock)
    ensures IntendedResolution(c).Ok? && Resolution(c).Ok? ==>
              IntendedResolution(c).value == Resolution(c).value.(fps := IntendedResolution(c).value.fps)
  {
  }

  /** The errors of the intended resolution: the same three messages, the final-frame one unreachable. */
  lemma IntendedResolutionErrors(c: ClockArgs)
    ensures var r := IntendedResolution(c);
      && (c.fps.None? && (c.finalClock.None? || c.finalFrame.None?) ==> r == Err(FpsMustBeSet))
      && (c.fps.Some? && c.finalClock.None? && c.finalFrame.None? ==> r == Err(FinalClockMustBeSet))
      && r != Err(FinalFrameMustBeSet)
      && (r.Err? ==> r.error == FpsMustBeSet || r.error == FinalClockMustBeSet || r.error == ZeroDivision)
  {
    ResolutionErrors(c);
  }

  /**
   * Every successful intended resolution is consistent: playing the clip at
   * `fps` for `duration` shows exactly the frame range, and the scaled clock
   * runs from the initial to the final clock over the clip.
   */
  lemma IntendedResolutionConsistent(c: ClockArgs)
    requires IntendedResolution(c).Ok?
    ensures Consistent(IntendedResolution(c).value)
  {
    var ic, if0 := c.initialClock, c.initialFrame;
    if c.fps.Some? && c.finalClock.Some? && c.finalFrame.Some? {
      var fps, fc, ff := c.fps.value, c.finalClock.value, c.finalFrame.value;
      ScaledTimingConsistent(fps, ic, fc, if0, ff);
    } else if c.fps.None? {
      var fc, ff := c.finalClock.value, c.finalFrame.value;
      assert IntendedResolution(c).value == Timing((ff - if0) / (fc - ic), ic, fc, if0, ff, 1.0, fc - ic);
      DivMul(ff - if0, fc - ic);
    } else if c.finalClock.None? {
      var fps, ff := c.fps.value, c.finalFrame.value;
      assert IntendedResolution(c).value == Timing(fps, ic, ic + (ff - if0) / fps, if0, ff, 1.0, ic + (ff - if0) / fps - ic);
      DivMul(ff - if0, fps);
    }
  }

  /** As written, the scaled clock still runs from the initial to the final clock over the clip. */
  lemma ResolutionClockRange(c: ClockArgs)
    requires Resolution(c).Ok?
    ensures SpansClockRange(Resolution(c).value)
  {
    if c.fps.Some? && c.finalClock.Some? && c.finalFrame.Some? {
      ScaledTimingConsistent(c.fps.value, c.initialClock, c.finalClock.value, c.initialFrame, c.finalFrame.value);
    }
  }

  /** A rate of `d / n` over a clip of length `d` shows `n` frames exactly when `d` is `n` or `-n`. */
  lemma InvertedRateFrames(d: real, n: real)
    requires n != 0.0
    ensures d * (d / n) == n <==> d == n || d == -n
  {
    var q := d / n;
    DivMul(d, n);
    assert d * q * n == d * d;
    if d * q == n {
      assert (d - n) * (d + n) == 0.0;
    }
    if d == n || d == -n {
      assert (d * q - n) * n == 0.0;
    }
  }

  /**
   * How far the resolution as written is consistent: it always spans the
   * clock range; with a supplied fps it also shows exactly the frame range;
   * with a derived fps it does so only when the clock span equals the frame
   * span up to sign, since the rate is derived as clock per frame.
   */
  lemma ResolutionConsistency(c: ClockArgs)
    requires Resolution(c).Ok?
    ensures var t := Resolution(c).value;
      && SpansClockRange(t)
      && (c.fps.Some? ==> Consistent(t))
      && (c.fps.None? ==>
            (ShowsFrameRange(t) <==>
               || t.finalClock - t.initialClock == t.finalFrame - t.initialFrame
               || t.finalClock - t.initialClock == t.initialFrame - t.finalFrame))
  {
    ResolutionClockRange(c);
    IntendedResolutionDiffers(c);
    if c.fps.Some? {
      IntendedResolutionConsistent(c);
    } else {
      var t := Resolution(c).value;
      InvertedRateFrames(t.finalClock - t.initialClock, t.finalFrame - t.initialFrame);
    }
  }

  /**
   * As written, a missing frame rate is derived upside down: ten clock units
   * over 240 frames give a rate of 10/240, so the clip shows 100/240 of a frame
   * instead of 240; the intended derivation gives 24.
   */
  lemma InvertedFrameRate()
    ensures var c := ClockArgs(None, 0.0, Some(10.0), 0.0, Some(240.0));
      && Resolution(c).Ok? && Resolution(c).value.fps == 10.0 / 240.0
      && !ShowsFrameRange(Resolution(c).value)
      && IntendedResolution(c).Ok? && IntendedResolution(c).value.fps == 24.0
  {
  }

  /** Frame rate 24 up to frame 240 gives final clock 10, no scaling and a 10-unit clip. */
  lemma ExampleFinalClockDerived()
    ensures Resolution(ClockArgs(Some(24.0), 0.0, None, 0.0, Some(240.0)))
            == Ok(Timing(24.0, 0.0, 10.0, 0.0, 240.0, 1.0, 10.0))
  {
  }

  /** All three of 30 fps, clock 8 and frame 200: the implied rate is 25, the scaling 1.2, the clip 8/1.2 long. */
  lemma ExampleTimeScaling()
    ensures Resolution(ClockArgs(Some(30.0), 0.0, Some(8.0), 0.0, Some(200.0)))
            == Ok(Timing(30.0, 0.0, 8.0, 0.0, 200.0, 1.2, 8.0 / 1.2))
  {
    assert 200.0 / 8.0 == 25.0;
    assert 30.0 / 25.0 == 1.2;
  }

  /** Without a final clock the frame rate cannot be derived. */
  lemma ExampleFpsMissing()
    ensures Resolution(ClockArgs(None, 0.0, None, 0.0, Some(100.0))) == Err(FpsMustBeSet)
  {
  }

  /**
   * The Python statements in order: the time-scaling factor from the values
   * as supplied, then fps, final clock and final frame each filled in if
   * missing, and finally the duration. Each division checks its divisor.
   */
  method ResolveTiming(c: ClockArgs) returns (r: Result<Timing, Error>)
    ensures r == Resolution(c)
  {
    var fps, initialClock, finalClock := c.fps, c.initialClock, c.finalClock;
    var initialFrame, finalFrame := c.initialFrame, c.finalFrame;
    var timeScaling := 1.0;

    if fps.Some? && finalClock.Some? && finalFrame.Some? {
      if finalClock.value - initialClock == 0.0 {
        return Err(ZeroDivision);
      }
      var wouldBeFps := (finalFrame.value - initialFrame) / (finalClock.value - initialClock);
      QuotientIsZero(finalFrame.value - initialFrame, finalClock.value - initialClock);
      if wouldBeFps == 0.0 {
        return Err(ZeroDivision);
      }
      timeScaling := fps.value / wouldBeFps;
      QuotientIsZero(fps.value, wouldBeFps);
    }

    if fps.None? {
      if finalClock.Some? && finalFrame.Some? {
        if finalFrame.value - initialFrame == 0.0 {
          return Err(ZeroDivision);
        }
        fps := Some((finalClock.value - initialClock) / (finalFrame.value - initialFrame));
      } else {
        return Err(FpsMustBeSet);
      }
    }

    if finalClock.None? {
      if fps.Some? && finalFrame.Some? {
        if fps.value == 0.0 {
          return Err(ZeroDivision);
        }
        finalClock := Some(initialClock + (finalFrame.value - initialFrame) / fps.value);
      } else {
        return Err(FinalClockMustBeSet);
      }
    }

    if finalFrame.None? {
      if fps.Some? && finalClock.Some? {
        assert fps == c.fps && finalClock == c.finalClock;
        finalFrame := Some(initialFrame + (finalClock.value - initialClock) * fps.value);
      } else {
        return Err(FinalFrameMustBeSet);
      }
    }

    if timeScaling == 0.0 {
      return Err(ZeroDivision);
    }
    var duration := (finalClock.value - initialClock) / timeScaling;
    if timeScaling == 1.0 {
      DivideByOne(finalClock.value - initialClock, timeScaling);
    }
    r := Ok(Timing(fps.value, initialClock, finalClock.value, initialFrame, finalFrame.value, timeScaling, duration));
    if c.fps.Some? && c.finalClock.Some? && c.finalFrame.Some? {
      assert r == Resolution(c);
    } else if c.fps.None? {
      assert r == Resolution(c);
    } else if c.finalClock.None? {
      assert r == Resolution(c);
    } else {
      var t := Resolution(c).value;
      assert r.value.finalFrame == t.finalFrame;
      assert r.value.duration == t.duration;
      assert r == Resolution(c);
    }
  }

  /** What `render_gif` hands to the clip: the renderer flags and the resolved timing. */
  datatype VideoPlan = VideoPlan(progArgs: seq<string>, timing: Timing)

  /** The partition followed by the resolution. */
  function VideoPlanOf(args: seq<string>, parse: string -> Option<real>): Result<VideoPlan, Error> {
    match FirstFault(args, parse)
    case Some(e) => Err(e)
    case None =>
      match Resolution(Settings(args, parse))
      case Err(e) => Err(e)
      case Ok(t) => Ok(VideoPlan(ProgArgs(args), t))
  }

  /** `render_gif` up to the clip: partition the arguments, then resolve the timing. */
  method PlanVideo(args: seq<string>, parse: string -> Option<real>) returns (r: Result<VideoPlan, Error>)
    ensures r == VideoPlanOf(args, parse)
  {
    var partition := PartitionArguments(args, parse);
    if partition.Err? {
      return Err(partition.error);
    }
    var timing := ResolveTiming(partition.value.clockArgs);
    if timing.Err? {
      return Err(timing.error);
    }
    r := Ok(VideoPlan(partition.value.progArgs, timing.value));
  }

  /**
   * A planned clip renders with exactly the header's renderer flags, in order,
   * and a timing that spans the clock range; it also shows exactly the frame
   * range when the header supplies fps, and with a derived fps only when the
   * clock span equals the frame span up to sign. A failed plan reports
   * the first bad argument or a configuration error, never the unreachable
   * final-frame one.
   */
  lemma VideoPlanOfMeaning(args: seq<string>, parse: string -> Option<real>)
    ensures var r := VideoPlanOf(args, parse);
      && (r.Ok? ==> r.value.progArgs == ProgArgs(args) && SpansClockRange(r.value.timing))
      && (r.Ok? ==> forall i :: 0 <= i < |r.value.progArgs| ==> Kind(r.value.progArgs[i]).Flag?)
      && (r.Ok? && Settings(args, parse).fps.Some? ==> Consistent(r.value.timing))
      && (r.Ok? && Settings(args, parse).fps.None? ==>
            var t := r.value.timing;
            ShowsFrameRange(t) <==>
              || t.finalClock - t.initialClock == t.finalFrame - t.initialFrame
              || t.finalClock - t.initialClock == t.initialFrame - t.finalFrame)
      && (FirstFault(args, parse).Some? ==> r == Err(FirstFault(args, parse).value))
      && r != Err(FinalFrameMustBeSet)
  {
    var c := Settings(args, parse);
    var r := VideoPlanOf(args, parse);
    assert r != Err(FinalFrameMustBeSet) by {
      FirstFaultNamesArgument(args, parse);
      ResolutionErrors(c);
    }
    if r.Ok? {
      assert r.value == VideoPlan(ProgArgs(args), Resolution(c).value);
      ProgArgsMeaning(args);
      ResolutionConsistency(c);
    }
  }
}
