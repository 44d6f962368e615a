# povray_build, modelled in Dafny

`bin/povray_build.py` renders a POV-Ray scene file. The file's leading `//`
comment lines are extra renderer flags. When any flag names a frame rate or a
clock bound (`fps`, `initial_clock`, `final_clock`, in any letter case), the
script renders the scene frame by frame into a video clip. Otherwise it renders
one still image. While the renderer runs, its diagnostic stream is read line by
line and filtered.

This project models the rules behind those steps and proves what they promise.
Each part has its own module:

- `Header` (header.dfy): `extract_arguments` classifies each line of the scene
  file as an argument, a blank line or a stop line. The loop is
  `ExtractArguments`, proved equal to the scan `HeaderArgs`.
- `LineReader` (line_reader.dfy): `better_readline` reads one character at a
  time, up to and including the next `\r` or `\n`. The stream is its contents
  plus a read position. `ReadLine` is the loop and `Lines` is the sequence of
  successive reads.
- `Diagnostics` (diagnostics.dfy): the sticky error filter of `render_png`.
  `FilterDiagnostics` reads with `ReadLine` and keeps the `has_had_error` flag.
  It is proved equal to `Echoed`.
- `Directives` (directives.dfy): the loop of `render_gif` that splits flags from
  `key=value` timing directives. It is `PartitionArguments`, proved against
  `FirstFault`, `ProgArgs` and `Settings`.
- `Timing` (timing.dfy): resolving fps, final clock, final frame, the
  time-scaling factor and the clip duration. The code as written is `Resolution`.
  `ResolveTiming` is the sequence of Python statements, proved equal to it.
  `PlanVideo` runs the partition and then this resolution. The corrected code
  is `IntendedResolution` (see Findings).
- `Frames` (frames.dfy): `make_frame` turns a clip time into a renderer clock
  and puts `Clock=` in front of the flags.
- `Render` (render.dfy): `render`'s choice between the video path and the still
  path.
- `Text` (text.dfy): the Python string operations the script uses: `strip`,
  `startswith`, `in`, `lower`, `split` on one character, `' '.join` and
  `''.join`.
- `Wrappers` (wrappers.dfy): `Option` and `Result`.

Numbers are reals. Three things become parameters:

- Python's `float(value)` is `parse: string -> Option<real>`, with `None` where
  `float` raises.
- `'{}'.format(x)` is `format: real -> string`.
- The scene file is given as its sequence of lines.

Every exception `render_gif` raises before the clip is built (lines 86-134) is
a value of `Directives.Error`:

- the two-name unpacking of a value with several `=`;
- a `float` failure;
- the three configuration messages;
- each division by zero.

In the header, blank lines are skipped, even before the first comment, and a
`////` line stops the scan like any other line that is not a `//` comment
(lines 14-19).

## Model

| member | source | states |
|---|---|---|
| Text.StripMeaning | bin/povray_build.py:14 | `strip()` drops only whitespace: the result is empty exactly when the line is all whitespace, and otherwise it runs from the first to the last non-space character |
| Text.StripTrims | bin/povray_build.py:17 | a stripped text has no whitespace at either end |
| Text.StripTrimmed | bin/povray_build.py:14-17 | a text without whitespace at its ends strips to itself, and so does it after a leading space |
| Text.ContainsAt | bin/povray_build.py:36 | the substring test `p in s` holds exactly when `p` occurs at some index of `s` |
| Text.IndexOf | bin/povray_build.py:88 | the split point is the first `=`: it holds `=` and nothing before it does |
| Text.Lower | bin/povray_build.py:89 | the model's `lower()` keeps the length, lower-cases the ASCII capitals, turns the Kelvin sign into `k` and keeps every other character |
| Text.SplitJoin | bin/povray_build.py:88 | joining the pieces of `s.split(c)` with `c` gives back `s`, and no piece holds `c` |
| Text.JoinSplit | bin/povray_build.py:88 | pieces without `c`, joined with `c`, split back into the same pieces |
| Text.SplitOnce | bin/povray_build.py:88 | the first piece ends at the first `=`; there are exactly two pieces when no other `=` follows it, and the second is then all that follows |
| Text.LowerAppend | bin/povray_build.py:147 | lower-casing a joined string lower-cases each piece and leaves the joining space alone |
| Text.ContainsAcrossSpace | bin/povray_build.py:147 | a pattern without a space occurs in `a + " " + b` exactly when it occurs in `a` or in `b` |
| Text.ContainsNeedsChar | bin/povray_build.py:147-148 | a pattern holding a character the string lacks does not occur in it |
| Header.ClassifyMeaning | bin/povray_build.py:14-19 | a line is an argument exactly when, stripped, it starts with `//` but not `////`; its argument is the stripped text after the marker; it is blank exactly when it is all whitespace; every other line stops the scan |
| Header.ExtractArguments | bin/povray_build.py:11-20 | the loop returns exactly `HeaderArgs(lines)` |
| Header.ClassifyLine | bin/povray_build.py:14-18 | the tests of one loop iteration yield that line's classification |
| Header.ScanIsArgumentTextsBeforeStop | bin/povray_build.py:13-19 | the arguments are the argument texts of the lines before the first stop line, in order |
| Header.HeaderArgsAppend | bin/povray_build.py:13-19 | lines after a stop line are never read; without one, the arguments of `a + b` are those of `a` followed by those of `b` |
| Header.BlankLineIsSkipped | bin/povray_build.py:18 | inserting a blank line anywhere changes nothing |
| Header.StopLineEndsScan | bin/povray_build.py:18-19 | nothing after a stop line is extracted, a `////` remark included |
| Header.CommentLineIsArgument | bin/povray_build.py:15-17 | `// flag` yields `flag` |
| Header.ExampleHeader | bin/povray_build.py:11-20 | `// -w800`, `// -h600`, `//// note`, a blank line and scene code give `["-w800", "-h600"]` |
| LineReader.LineEndMeaning | bin/povray_build.py:52-57 | the read stops just after the first terminator, or at the end of the stream |
| LineReader.ReadLine | bin/povray_build.py:45-58 | the loop returns the characters from the position up to `LineEnd`, and the position after them |
| LineReader.LineAtShape | bin/povray_build.py:51-58 | a read is empty exactly at the end of the stream; a terminator can only be its last character; a read without one reaches the end of the stream |
| LineReader.LinesConcat | bin/povray_build.py:45-58 | joining the successive reads gives back the whole stream |
| LineReader.ExampleStream | bin/povray_build.py:45-58 | `abc\r123\n` reads as `abc\r`, then `123\n`, then the empty line |
| Diagnostics.FilterDiagnostics | bin/povray_build.py:30-41 | the loop echoes exactly `Echoed(Lines(stderr))` |
| Diagnostics.EchoLine | bin/povray_build.py:36-41 | one loop iteration: the flag rises on `Error` and stays up, and the line is echoed when the flag is up or it is a progress line, so the echoed lines so far plus the echo of the rest are unchanged |
| Diagnostics.EchoedSplitsAtFirstError | bin/povray_build.py:30-41 | the echoed lines are the progress lines before the first `Error` line, followed by that line and every line after it |
| Diagnostics.FirstErrorMeaning | bin/povray_build.py:36-37 | no line before `FirstError` mentions `Error`, and the line at it does |
| Diagnostics.ProgressLinesMeaning | bin/povray_build.py:39-40 | the progress lines are the lines starting with `Rendered` or `Photon` and only those, every one of them, as many as there are, in order |
| Diagnostics.EchoAfterError | bin/povray_build.py:36-41 | once the flag is up, every line is echoed |
| Diagnostics.EchoedIsSubsequence | bin/povray_build.py:30-41 | the echoed lines are an in-order subsequence of the diagnostic lines |
| Directives.KindMeaning | bin/povray_build.py:87-95 | against `arg.split('=')`: the two-name unpacking fails exactly when there are more than two pieces; the argument is a directive exactly when there are two pieces and the stripped, lower-cased first one is a dictionary key, and it carries the second piece; with one piece or an unknown name it is a flag |
| Directives.DirectiveOf | bin/povray_build.py:87-91 | `name=value` with a single `=` and a dictionary key for its name is a directive carrying `value` |
| Directives.ExampleKelvinSign | bin/povray_build.py:89-91 | `Final_Cloc` followed by the Kelvin sign, `=10`, sets the final clock, because `lower()` turns the Kelvin sign into `k` |
| Directives.ClassifyArgument | bin/povray_build.py:87-90 | the tests of one loop iteration yield that argument's classification |
| Directives.PartitionArguments | bin/povray_build.py:77-95 | the loop raises the first bad argument's error, and otherwise returns the flags and the filled-in dictionary |
| Directives.StepAt | bin/povray_build.py:86-95 | one good argument appends itself to the flags when it is a flag, and when it is a directive overwrites its key with the parsed value |
| Directives.ProgArgsOfMeaning | bin/povray_build.py:86-95 | over classified arguments: every kept argument is a flag entry, every flag entry is kept, as many are kept as there are flag entries, and the kept ones are an in-order subsequence |
| Directives.ProgArgsMeaning | bin/povray_build.py:86-95 | `prog_args` holds only flags, is an in-order subsequence of the arguments, keeps every flag and has as many entries as there are flag arguments, so each repeated flag is kept each time |
| Directives.LaterDirectiveWins | bin/povray_build.py:90-91 | a directive for a key overrides every earlier one and holds until the next one |
| Directives.UnpackingFails | bin/povray_build.py:87-88 | an argument that splits at `=` into more than two pieces, reached without an earlier error, raises the unpacking error |
| Directives.FirstFaultNamesArgument | bin/povray_build.py:88-91 | the reported error names one of the arguments and is an unpacking or a `float` error |
| Directives.LastValueOfSkips | bin/povray_build.py:90-91 | arguments that do not set a key leave its value alone |
| Timing.ResolutionErrors | bin/povray_build.py:105-130 | fps missing with a final value missing is "FPS must be set"; fps present with both final values missing is "Final_Clock must be set"; "Final_Frame must be set" is unreachable; division by zero happens exactly where `DividesByZero` says |
| Timing.ResolutionFillsIn | bin/povray_build.py:98-130 | a successful resolution keeps every supplied value and fills in the missing one by its formula as written |
| Timing.ResolutionScaling | bin/povray_build.py:103-109 | the factor is 1 unless fps, final clock and final frame are all supplied; then it is fps over the rate the ranges imply; it is never zero, and the duration is the clock range divided by it |
| Timing.ResolutionClockRange | bin/povray_build.py:98-134 | as written, the scaled clock still runs from the initial to the final clock over the clip |
| Timing.ResolutionConsistency | bin/povray_build.py:103-134 | as written, every resolution spans the clock range; with a supplied fps the clip also shows exactly the frame range; with a derived fps it does so only when the clock span equals the frame span up to sign |
| Timing.ScaledTimingConsistent | bin/povray_build.py:105-109 | with all three supplied, the scaled clip shows exactly the frame range and its clock runs over the clock range |
| Timing.InvertedFrameRate | bin/povray_build.py:114 | with 10 clock units and 240 frames, the code derives fps 10/240, and the clip shows less than one of the 240 frames; the intended rate is 24 |
| Timing.IntendedResolutionDiffers | bin/povray_build.py:111-114 | the corrected resolution equals the one as written except when it derives a missing fps; that derivation fails exactly on an empty clock range |
| Timing.IntendedResolutionErrors | bin/povray_build.py:111-130 | the corrected resolution has the same configuration errors, and "Final_Frame must be set" stays unreachable |
| Timing.IntendedResolutionConsistent | bin/povray_build.py:103-134 | every successful corrected resolution is consistent: at fps for the duration the clip shows exactly the frame range, and the scaled clock runs from the initial to the final clock |
| Timing.ExampleFinalClockDerived | bin/povray_build.py:118-121 | 24 fps up to frame 240 gives final clock 10, factor 1 and a 10-unit clip |
| Timing.ExampleTimeScaling | bin/povray_build.py:105-109 | 30 fps, clock 8 and frame 200 give an implied rate of 25, a factor of 1.2 and a clip 8/1.2 long |
| Timing.ExampleFpsMissing | bin/povray_build.py:111-116 | without a final clock, a missing fps is "FPS must be set" |
| Timing.ResolveTiming | bin/povray_build.py:98-134 | the statements in order, with each division checking its divisor, give exactly `Resolution`, line 114 as written |
| Timing.PlanVideo | bin/povray_build.py:76-134 | partition then resolution give exactly `VideoPlanOf` |
| Timing.VideoPlanOfMeaning | bin/povray_build.py:76-134 | a planned clip gets exactly the header's flags, all of them flags, and a timing that spans the clock range; it shows exactly the frame range when the header supplies fps, and with a derived fps only when the clock span equals the frame span up to sign; a bad argument is reported first; "Final_Frame must be set" never occurs |
| Frames.FrameArgsShape | bin/povray_build.py:65 | the frame's arguments are `Clock=` and the formatted clock, then the flags unchanged |
| Frames.ClipTimeRoundTrip | bin/povray_build.py:64 | with a nonzero factor, clock and clip time convert into each other without loss |
| Frames.FrameClockMonotonic | bin/povray_build.py:64 | with a positive factor, a later clip time shows a later clock |
| Frames.FrameClockSpansClockRange | bin/povray_build.py:64 | for a timing that spans the clock range, clip time 0 shows the initial clock and the duration shows the final clock |
| Frames.PlannedClipSpansClockRange | bin/povray_build.py:61-65 | every planned clip's first frame renders at `Clock=` initial clock and its frame at the duration at `Clock=` final clock, each followed by the header's flags |
| Render.Render | bin/povray_build.py:145-153 | the dispatch gives exactly `RenderOf`, which plans a clip with line 114 as written |
| Render.NeedsVideoIffSomeArgument | bin/povray_build.py:147-148 | the space-joined test holds exactly when some single argument, lower-cased, contains a keyword, so joining makes no match of its own |
| Render.MentionsTimingAcrossSpace | bin/povray_build.py:147-148 | a keyword occurs across a joining space exactly when it occurs on one side |
| Render.RenderOfMeaning | bin/povray_build.py:145-153 | a still image is rendered exactly when no argument mentions a keyword, and it gets every header argument; a planned clip gets the flags and a timing that spans the clock range, and it shows exactly the frame range when the header supplies fps |
| Render.NoPCSelectsStill | bin/povray_build.py:147-153 | arguments without `p` and `c` in either case take the still path |
| Render.ExampleFrameRangeSelectsStill | bin/povray_build.py:147-153 | `Initial_Frame=1 Final_Frame=10` alone takes the still path |
| Render.ExampleFpsSelectsVideo | bin/povray_build.py:147-151 | a header flag `FPS=24` selects the video path |
| Render.ExampleFlagSelectsStill | bin/povray_build.py:147-153 | a header holding only `-w800` takes the still path |

## Left out

- Launching `povray` with `subprocess.Popen` is not modelled. Neither is the command `['povray','-D'] + args + [pov_file]` or the unused `stdbuf` list. The renderer's diagnostic stream is an input string.
- Printing is not modelled: the command line, the blank lines and the echo itself. The echoed lines are the result.
- The ASCII `decode` of each byte is not modelled. The stream is already text.
- The temporary directory, the symlink, `os.path.realpath` and `scipy.ndimage.imread` in `make_frame` are not modelled. The frame is the argument list it is rendered with.
- `VideoClip` and `write_videofile` are not modelled. The clip is its resolved timing and the flags.
- Opening the scene file and splitting it into lines is not modelled. The scene file is its sequence of lines.
- `float(value)` and `'{}'.format(x)` are the parameters `parse` and `format`.
- IEEE floating point is not modelled. Arithmetic is exact on reals, so rounding, infinities and NaN do not arise.
- Renderer and reader run concurrently in the source; no concurrency is modelled.
- Text.Lower: changes only the ASCII capitals and the Kelvin sign. Python's `str.lower()` also lower-cases other letters, and it turns `İ` (U+0130) into two characters, `i` and U+0307. None of those results is an ASCII letter except that `i`. In every dictionary key and keyword, an `i` is followed by an ASCII letter, so that `i` completes no match, and the tests at lines 89-90 and 147 come out the same.

## Findings

| source | as written | input that shows it | evidently intended | confidence | as-written member | corrected member |
|---|---|---|---|---|---|---|
| bin/povray_build.py:114 | a missing fps is derived as `(final_clock-initial_clock) / (final_frame-initial_frame)`, clock per frame | `Final_Clock=10`, `Final_Frame=240`, no `FPS`: fps becomes 10/240, so a 10-unit clip plays 100/240 of a frame instead of 240 frames | frames per clock unit, `(final_frame-initial_frame) / (final_clock-initial_clock)`, the rate lines 108, 121 and 128 use; this gives 24 | high; not executed | Timing.InvertedFrameRate | Timing.IntendedResolutionConsistent |
