/**
 * `frame_gen`'s `make_frame`: a clip time becomes a renderer clock value, and
 * the renderer is run with `Clock=<value>` ahead of the other flags. Rendering
 * itself, the temporary directory and reading the image back are not part of
 * this model; `format` stands for Python's `'{}'.format` on a float.
 */
module Frames {
  import opened Wrappers
  import opened Text
  import opened Directives
  import opened Timing

  /** `actual_time = time*time_scaling + initial_time`: the clock shown at clip time `time`. */
  function FrameClock(t: Timing, time: real): real {
    time * t.timeScaling + t.initialClock
  }

  /** The clip time at which the clock shows `clock`: the inverse of `FrameClock`. */
  function ClipTime(t: Timing, clock: real): real
    requires t.timeScaling != 0.0
  {
    (clock - t.initialClock) / t.timeScaling
  }

  /** `['Clock={}'.format(actual_time)] + args`: the clock flag first, then the renderer flags. */
  function FrameArgs(progArgs: seq<string>, clock: real, format: real -> string): seq<string> {
    ["Clock=" + format(clock)] + progArgs
  }

  /** The arguments `make_frame(time)` renders with. */
  function MakeFrameArgs(plan: VideoPlan, time: real, format: real -> string): seq<string> {
    FrameArgs(plan.progArgs, FrameClock(plan.timing, time), format)
  }

  /**
   * The clock flag comes first and carries the formatted clock; the renderer
   * flags follow unchanged and in order.
   */
  lemma FrameArgsShape(progArgs: seq<string>, clock: real, format: real -> string)
    ensures var r := FrameArgs(progArgs, clock, format);
      && |r| == |progArgs| + 1
      && StartsWith(r[0], "Clock=") && r[0][6..] == format(clock)
      && r[1..] == progArgs
  {
    var r := FrameArgs(progArgs, clock, format);
    assert r[0][..6] == "Clock=";
  }

  /** `FrameClock` and `ClipTime` undo each other whenever the scaling is nonzero. */
  lemma ClipTimeRoundTrip(t: Timing, time: real, clock: real)
    requires t.timeScaling != 0.0
    ensures ClipTime(t, FrameClock(t, time)) == time
    ensures FrameClock(t, ClipTime(t, clock)) == clock
  {
    DivMul(clock - t.initialClock, t.timeScaling);
    assert (time * t.timeScaling) / t.timeScaling == time;
  }

  /** With a positive scaling, a later clip time shows a later clock. */
  lemma FrameClockMonotonic(t: Timing, t1: real, t2: real)
    requires t.timeScaling > 0.0 && t1 < t2
    ensures FrameClock(t, t1) < FrameClock(t, t2)
  {
    assert (t2 - t1) * t.timeScaling > 0.0;
  }

  /**
   * For a timing that spans the clock range, the clip starts at the initial
   * clock and ends, at its duration, at the final clock.
   */
  lemma FrameClockSpansClockRange(t: Timing)
    requires SpansClockRange(t)
    ensures FrameClock(t, 0.0) == t.initialClock
    ensures FrameClock(t, t.duration) == t.finalClock
  {
  }

  /**
   * For every planned clip, the first frame is rendered at the initial clock
   * and the frame at the clip's duration at the final clock, each with the
   * header's renderer flags after the clock flag.
   */
  lemma PlannedClipSpansClockRange(args: seq<string>, parse: string -> Option<real>, format: real -> string)
    requires VideoPlanOf(args, parse).Ok?
    ensures var plan := VideoPlanOf(args, parse).value;
      && MakeFrameArgs(plan, 0.0, format) == ["Clock=" + format(plan.timing.initialClock)] + ProgArgs(args)
      && MakeFrameArgs(plan, plan.timing.duration, format)
         == ["Clock=" + format(plan.timing.finalClock)] + ProgArgs(args)
  {
    VideoPlanOfMeaning(args, parse);
    FrameClockSpansClockRange(VideoPlanOf(args, parse).value.timing);
  }
}
