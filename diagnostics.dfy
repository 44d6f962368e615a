/**
 * The diagnostic filter of `render_png`: lines of the renderer's diagnostic
 * stream are echoed selectively, progress lines only, until a line mentions
 * `Error`; from that line on every line is echoed (the flag never resets).
 * Launching the renderer and printing are not modelled: the echoed lines are the result.
 */
module Diagnostics {
  import opened Text
  import opened LineReader

  /** A progress line, echoed even before any error. */
  predicate IsProgress(line: string) {
    StartsWith(line, "Rendered") || StartsWith(line, "Photon")
  }

  /** A line that switches the filter into its echo-everything state. */
  predicate IsError(line: string) {
    Contains(line, "Error")
  }

  /** The echoed lines of `lines`, starting with the sticky flag set to `hadError`. */
  function EchoFrom(lines: seq<string>, hadError: bool): seq<string>
    decreases |lines|
  {
    if lines == [] then []
    else
      var flag := hadError || IsError(lines[0]);
      (if flag || IsProgress(lines[0]) then [lines[0]] else []) + EchoFrom(lines[1..], flag)
  }

  /** The echoed lines of a whole run: the flag starts cleared. */
  function Echoed(lines: seq<string>): seq<string> {
    EchoFrom(lines, false)
  }

  /**
   * The Python loop over the diagnostic stream: read a line, stop on the empty
   * line, raise the flag on `Error`, echo when the flag is up or the line is progress.
   */
  method FilterDiagnostics(stderr: string) returns (echoed: seq<string>)
    ensures echoed == Echoed(Lines(stderr))
  {
    ghost var all := Echoed(Lines(stderr));
    echoed := [];
    var pos: nat := 0;
    var hasHadError := false;
    while true
      invariant pos <= |stderr|
      invariant echoed + EchoFrom(LinesFrom(stderr, pos), hasHadError) == all
      decreases |stderr| - pos
    {
      var line, next := ReadLine(stderr, pos);
      if line == [] {
        break;
      }
      LinesFromStep(stderr, pos, line, next);
      hasHadError, echoed := EchoLine(echoed, line, LinesFrom(stderr, next), hasHadError);
      pos := next;
    }
  }

  /**
   * The body of the loop for one line: the flag is raised by `Error` and stays
   * up, and the line is echoed when the flag is up or it is a progress line.
   */
  method EchoLine(echoed: seq<string>, line: string, rest: seq<string>, hadError: bool)
    returns (flag: bool, echoed': seq<string>)
    ensures echoed + EchoFrom([line] + rest, hadError) == echoed' + EchoFrom(rest, flag)
  {
    assert ([line] + rest)[1..] == rest;
    flag := hadError;
    if Contains(line, "Error") {
      flag := true;
    }
    if flag || StartsWith(line, "Rendered") || StartsWith(line, "Photon") {
      echoed' := echoed + [line];
      assert echoed + ([line] + EchoFrom(rest, flag)) == echoed' + EchoFrom(rest, flag);
    } else {
      echoed' := echoed;
    }
  }

  /** The index of the first line that mentions `Error`, or `|lines|` when none does. */
  function FirstError(lines: seq<string>): (n: nat)
    ensures n <= |lines|
    decreases |lines|
  {
    if lines == [] || IsError(lines[0]) then 0 else 1 + FirstError(lines[1..])
  }

  /** The progress lines among `lines`, in order. */
  function ProgressLines(lines: seq<string>): (r: seq<string>)
    decreases |lines|
  {
    if lines == [] then []
    else (if IsProgress(lines[0]) then [lines[0]] else []) + ProgressLines(lines[1..])
  }

  /** `FirstError` is the index of the first line mentioning `Error`: no line before it does. */
  lemma {:induction false} FirstErrorMeaning(lines: seq<string>)
    ensures forall i :: 0 <= i < FirstError(lines) ==> !IsError(lines[i])
    ensures FirstError(lines) < |lines| ==> IsError(lines[FirstError(lines)])
    decreases |lines|
  {
    if lines != [] && !IsError(lines[0]) {
      FirstErrorMeaning(lines[1..]);
      forall i | 1 <= i < FirstError(lines)
        ensures !IsError(lines[i])
      {
        assert lines[i] == lines[1..][i - 1];
      }
    }
  }

  /** One more line extends the progress lines by itself exactly when it is a progress line. */
  lemma {:induction false} ProgressLinesAppend(a: seq<string>, line: string)
    ensures ProgressLines(a + [line]) == ProgressLines(a) + (if IsProgress(line) then [line] else [])
    decreases |a|
  {
    if a == [] {
      assert [line][1..] == [];
    } else {
      assert (a + [line])[0] == a[0];
      assert (a + [line])[1..] == a[1..] + [line];
      ProgressLinesAppend(a[1..], line);
      AppendAssoc(if IsProgress(a[0]) then [a[0]] else [], ProgressLines(a[1..]),
                  if IsProgress(line) then [line] else []);
    }
  }

  /** The first `n` lines hold as many progress lines as `ProgressLines` keeps of them. */
  lemma {:induction false} ProgressLinesCount(lines: seq<string>, n: nat)
    requires n <= |lines|
    ensures |ProgressLines(lines[..n])| == |set i | 0 <= i < n && IsProgress(lines[i])|
    decreases n
  {
    if n > 0 {
      ProgressLinesCount(lines, n - 1);
      assert lines[..n] == lines[..n - 1] + [lines[n - 1]];
      ProgressLinesAppend(lines[..n - 1], lines[n - 1]);
      var before := set i | 0 <= i < n - 1 && IsProgress(lines[i]);
      if IsProgress(lines[n - 1]) {
        assert (set i | 0 <= i < n && IsProgress(lines[i])) == before + {n - 1};
      } else {
        assert (set i | 0 <= i < n && IsProgress(lines[i])) == before;
      }
    }
  }

  /**
   * `ProgressLines` keeps exactly the progress lines, in order: only progress
   * lines, every one of them, as many as there are, as an in-order subsequence.
   */
  lemma ProgressLinesMeaning(lines: seq<string>)
    ensures forall i :: 0 <= i < |ProgressLines(lines)| ==> IsProgress(ProgressLines(lines)[i])
    ensures forall i :: 0 <= i < |lines| && IsProgress(lines[i]) ==> lines[i] in ProgressLines(lines)
    ensures |ProgressLines(lines)| == |set i | 0 <= i < |lines| && IsProgress(lines[i])|
    ensures IsSubsequence(ProgressLines(lines), lines)
  {
    ProgressLinesKept(lines);
    ProgressLinesCount(lines, |lines|);
    assert lines[..|lines|] == lines;
  }

  /** Only progress lines, all of them, in order. */
  lemma {:induction false} ProgressLinesKept(lines: seq<string>)
    ensures forall i :: 0 <= i < |ProgressLines(lines)| ==> IsProgress(ProgressLines(lines)[i])
    ensures forall i :: 0 <= i < |lines| && IsProgress(lines[i]) ==> lines[i] in ProgressLines(lines)
    ensures IsSubsequence(ProgressLines(lines), lines)
    decreases |lines|
  {
    if lines != [] {
      var rest := ProgressLines(lines[1..]);
      ProgressLinesKept(lines[1..]);
      forall i | 1 <= i < |lines| && IsProgress(lines[i])
        ensures lines[i] in ProgressLines(lines)
      {
        assert lines[i] == lines[1..][i - 1];
      }
      if IsProgress(lines[0]) {
        assert ProgressLines(lines) == [lines[0]] + rest;
        assert ([lines[0]] + rest)[1..] == rest;
      } else {
        assert ProgressLines(lines) == rest;
      }
    }
  }

  /** Once the flag is up, every line is echoed. */
  lemma {:induction false} EchoAfterError(lines: seq<string>)
    ensures EchoFrom(lines, true) == lines
    decreases |lines|
  {
    if lines != [] {
      EchoAfterError(lines[1..]);
    }
  }

  /**
   * The whole filter: the progress lines before the first `Error` line,
   * then that line and every line after it.
   */
  lemma {:induction false} EchoedSplitsAtFirstError(lines: seq<string>)
    ensures Echoed(lines) == ProgressLines(lines[..FirstError(lines)]) + lines[FirstError(lines)..]
    decreases |lines|
  {
    if lines == [] {
    } else if IsError(lines[0]) {
      EchoAfterError(lines[1..]);
      assert lines == [lines[0]] + lines[1..];
    } else {
      EchoedSplitsAtFirstError(lines[1..]);
      var n := FirstError(lines);
      assert lines[..n] == [lines[0]] + lines[1..][..n - 1];
      assert lines[n..] == lines[1..][n - 1..];
    }
  }

  /** The echoed lines are some of the input lines, in their original order. */
  lemma {:induction false} EchoFromIsSubsequence(lines: seq<string>, hadError: bool)
    ensures IsSubsequence(EchoFrom(lines, hadError), lines)
    decreases |lines|
  {
    if lines != [] {
      var flag := hadError || IsError(lines[0]);
      var rest := EchoFrom(lines[1..], flag);
      EchoFromIsSubsequence(lines[1..], flag);
      if flag || IsProgress(lines[0]) {
        assert EchoFrom(lines, hadError) == [lines[0]] + rest;
        assert ([lines[0]] + rest)[1..] == rest;
      } else {
        assert EchoFrom(lines, hadError) == rest;
      }
    }
  }

  /** The echoed lines of a run are an in-order subsequence of the diagnostic lines. */
  lemma EchoedIsSubsequence(lines: seq<string>)
    ensures IsSubsequence(Echoed(lines), lines)
  {
    EchoFromIsSubsequence(lines, false);
  }
}
