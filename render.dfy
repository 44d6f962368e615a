/**
 * `render`: read the header arguments, then either build a clip, when some
 * argument names a timing directive, or render one still image. Running the
 * renderer and encoding the clip are not part of this model; the outcome is
 * the action taken.
 */
module Render {
  import opened Wrappers
  import opened Text
  import opened Header
  import opened Directives
  import opened Timing

  /** The keywords whose presence, in any letter case, selects the clip path. */
  predicate MentionsTiming(s: string) {
    Contains(s, "fps") || Contains(s, "initial_clock") || Contains(s, "final_clock")
  }

  /** `needs_gif`: a keyword occurs in the lower-cased, space-joined arguments. */
  predicate NeedsVideo(args: seq<string>) {
    MentionsTiming(Lower(Join(" ", args)))
  }

  /** What `render` does with a scene file. */
  datatype Action =
    | Still(args: seq<string>)   // `render_png(pov_file, args)`
    | Video(plan: VideoPlan)     // `render_gif(pov_file, args)` gets as far as the clip
    | Failed(error: Error)       // `render_gif` raises before the clip

  /** The action for a scene file with the given lines. */
  function RenderOf(lines: seq<string>, parse: string -> Option<real>): Action {
    var args := HeaderArgs(lines);
    if NeedsVideo(args) then
      match VideoPlanOf(args, parse)
      case Ok(plan) => Video(plan)
      case Err(e) => Failed(e)
    else Still(args)
  }

  /** `render(pov_file)`. */
  method Render(lines: seq<string>, parse: string -> Option<real>) returns (action: Action)
    ensures action == RenderOf(lines, parse)
  {
    var args := ExtractArguments(lines);
    var needsVideo := NeedsVideo(args);
    if needsVideo {
      var plan := PlanVideo(args, parse);
      if plan.Ok? {
        action := Video(plan.value);
      } else {
        action := Failed(plan.error);
      }
    } else {
      action := Still(args);
    }
  }

  /** None of the keywords contains a space. */
  lemma KeywordsHaveNoSpace()
    ensures ' ' !in "fps" && ' ' !in "initial_clock" && ' ' !in "final_clock"
  {
  }

  /** A keyword is mentioned across a joining space exactly when it is mentioned on one side. */
  lemma MentionsTimingAcrossSpace(a: string, b: string)
    ensures MentionsTiming(a + " " + b) <==> MentionsTiming(a) || MentionsTiming(b)
  {
    KeywordsHaveNoSpace();
    ContainsAcrossSpace(a, b, "fps");
    ContainsAcrossSpace(a, b, "initial_clock");
    ContainsAcrossSpace(a, b, "final_clock");
  }

  /**
   * Joining the arguments creates no match of its own: the clip path is taken
   * exactly when some single argument, lower-cased, contains a keyword.
   */
  lemma {:induction false} NeedsVideoIffSomeArgument(args: seq<string>)
    ensures NeedsVideo(args) <==> exists i :: 0 <= i < |args| && MentionsTiming(Lower(args[i]))
    decreases |args|
  {
    if args == [] {
      assert Lower("") == "";
    } else if |args| == 1 {
      assert Join(" ", args) == args[0];
    } else {
      var rest := args[1..];
      assert Join(" ", args) == args[0] + " " + Join(" ", rest);
      LowerAppend(args[0] + " ", Join(" ", rest));
      LowerAppend(args[0], " ");
      assert Lower(Join(" ", args)) == Lower(args[0]) + " " + Lower(Join(" ", rest));
      MentionsTimingAcrossSpace(Lower(args[0]), Lower(Join(" ", rest)));
      NeedsVideoIffSomeArgument(rest);
      if exists i :: 0 <= i < |rest| && MentionsTiming(Lower(rest[i])) {
        var i :| 0 <= i < |rest| && MentionsTiming(Lower(rest[i]));
        assert rest[i] == args[i + 1];
      }
      if exists i :: 0 <= i < |args| && MentionsTiming(Lower(args[i])) {
        var i :| 0 <= i < |args| && MentionsTiming(Lower(args[i]));
        if i > 0 {
          assert args[i] == rest[i - 1];
        }
      }
    }
  }

  /**
   * A still image is rendered exactly when no header argument mentions a
   * timing keyword, and it gets every header argument; otherwise the clip is
   * planned from the header arguments, and a planned clip renders with the
   * renderer flags and a timing that spans the clock range, which also shows
   * exactly the frame range when the header supplies fps.
   */
  lemma RenderOfMeaning(lines: seq<string>, parse: string -> Option<real>)
    ensures var args := HeaderArgs(lines);
      && (RenderOf(lines, parse).Still? <==>
            forall i :: 0 <= i < |args| ==> !MentionsTiming(Lower(args[i])))
      && (RenderOf(lines, parse).Still? ==> RenderOf(lines, parse).args == args)
      && (RenderOf(lines, parse).Video? ==>
            RenderOf(lines, parse).plan.progArgs == ProgArgs(args)
            && SpansClockRange(RenderOf(lines, parse).plan.timing))
      && (RenderOf(lines, parse).Video? && Settings(args, parse).fps.Some? ==>
            Consistent(RenderOf(lines, parse).plan.timing))
  {
    NeedsVideoIffSomeArgument(HeaderArgs(lines));
    VideoPlanOfMeaning(HeaderArgs(lines), parse);
  }

  /** A header flag `FPS=24` selects the clip path. */
  lemma ExampleFpsSelectsVideo()
    ensures NeedsVideo(["FPS=24"])
  {
    assert Join(" ", ["FPS=24"]) == "FPS=24";
    assert Lower("FPS=24") == "fps=24";
    assert StartsWith("fps=24", "fps");
  }

  /** A header holding only `-w800` renders a still image. */
  lemma ExampleFlagSelectsStill()
    ensures !NeedsVideo(["-w800"])
  {
    assert Join(" ", ["-w800"]) == "-w800";
    assert Lower("-w800") == "-w800";
    ContainsNeedsChar("-w800", "fps", 'f');
    ContainsNeedsChar("-w800", "initial_clock", 'i');
    ContainsNeedsChar("-w800", "final_clock", 'f');
  }

  /** An argument without the letters `p` and `c`, in either case, mentions no keyword. */
  lemma NoKeywordWithoutPC(arg: string)
    requires 'p' !in arg && 'P' !in arg && 'c' !in arg && 'C' !in arg
    ensures !MentionsTiming(Lower(arg))
  {
    LowerLacks(arg, 'p');
    LowerLacks(arg, 'c');
    ContainsNeedsChar(Lower(arg), "fps", 'p');
    ContainsNeedsChar(Lower(arg), "initial_clock", 'c');
    ContainsNeedsChar(Lower(arg), "final_clock", 'c');
  }

  /**
   * Arguments without the letters `p` and `c`, such as the frame-range
   * directives `Initial_Frame=1` and `Final_Frame=10`, never select the clip
   * path: only the fps and clock keywords do.
   */
  lemma NoPCSelectsStill(args: seq<string>)
    requires forall i :: 0 <= i < |args| ==> 'p' !in args[i] && 'P' !in args[i] && 'c' !in args[i] && 'C' !in args[i]
    ensures !NeedsVideo(args)
  {
    NeedsVideoIffSomeArgument(args);
    forall i | 0 <= i < |args|
      ensures !MentionsTiming(Lower(args[i]))
    {
      NoKeywordWithoutPC(args[i]);
    }
  }

  /** `Initial_Frame=1 Final_Frame=10` alone renders a still image. */
  lemma ExampleFrameRangeSelectsStill(args: seq<string>)
    requires args == ["Initial_Frame=1", "Final_Frame=10"]
    ensures !NeedsVideo(args)
  {
    NoPCSelectsStill(args);
  }
}
