/**
 * `better_readline`: read the renderer's diagnostic stream one character at
 * a time up to and including the next `\r` or `\n`, so that a carriage-return
 * progress update and a newline-terminated log line stay distinguishable.
 * The stream is its full contents plus the position of the next unread character.
 */
module LineReader {
  import opened Text

  /** The two characters that end a line; the line keeps whichever it met. */
  predicate IsTerminator(c: char) {
    c == '\r' || c == '\n'
  }

  /** Position just past the line that starts at `pos`: past its terminator, or the end of the stream. */
  function LineEnd(stream: string, pos: nat): (e: nat)
    requires pos <= |stream|
    ensures pos <= e <= |stream|
    ensures pos < |stream| ==> pos < e
    decreases |stream| - pos
  {
    if pos == |stream| then pos
    else if IsTerminator(stream[pos]) then pos + 1
    else LineEnd(stream, pos + 1)
  }

  /**
   * The line from `pos` to `LineEnd` holds no terminator before its last
   * character, and it ends in one unless it runs to the end of the stream.
   */
  lemma {:induction false} LineEndMeaning(stream: string, pos: nat)
    requires pos <= |stream|
    ensures forall k :: pos <= k < LineEnd(stream, pos) - 1 ==> !IsTerminator(stream[k])
    ensures LineEnd(stream, pos) < |stream| ==> IsTerminator(stream[LineEnd(stream, pos) - 1])
    ensures var e := LineEnd(stream, pos);
      e == |stream| && pos < e && !IsTerminator(stream[e - 1]) ==>
        forall k :: pos <= k < e ==> !IsTerminator(stream[k])
    decreases |stream| - pos
  {
    if pos < |stream| && !IsTerminator(stream[pos]) {
      LineEndMeaning(stream, pos + 1);
    }
  }

  /**
   * The Python loop: `stream.read(1)` yields one character, or `''` at the end;
   * a character is appended, and the loop stops after a terminator or at the end.
   * Returns the line and the position after it.
   */
  method ReadLine(stream: string, pos: nat) returns (line: string, next: nat)
    requires pos <= |stream|
    ensures next == LineEnd(stream, pos)
    ensures line == stream[pos..next]
  {
    line, next := "", pos;
    while true
      invariant pos <= next <= |stream|
      invariant line == stream[pos..next]
      invariant LineEnd(stream, next) == LineEnd(stream, pos)
      decreases |stream| - next
    {
      var ch: string := if next < |stream| then [stream[next]] else "";
      if ch != "" {
        line := line + ch;
        next := next + 1;
      }
      if ch == "" || IsTerminator(ch[0]) {
        break;
      }
    }
  }

  /** The line `ReadLine` returns at `pos`. */
  function LineAt(stream: string, pos: nat): string
    requires pos <= |stream|
  {
    stream[pos..LineEnd(stream, pos)]
  }

  /**
   * What one read promises: an empty line exactly at the end of the stream;
   * otherwise at most one terminator, and only as the last character; and a
   * line without a terminator only when it runs to the end of the stream.
   */
  lemma LineAtShape(stream: string, pos: nat)
    requires pos <= |stream|
    ensures LineAt(stream, pos) == [] <==> pos == |stream|
    ensures var line := LineAt(stream, pos);
            forall k :: 0 <= k < |line| - 1 ==> !IsTerminator(line[k])
    ensures var line := LineAt(stream, pos);
            line != [] && !IsTerminator(line[|line| - 1]) ==> pos + |line| == |stream|
  {
    var line := LineAt(stream, pos);
    LineEndMeaning(stream, pos);
    forall k | 0 <= k < |line| - 1 ensures !IsTerminator(line[k]) {
      assert line[k] == stream[pos + k];
    }
  }

  /** The successive lines read from `pos` until the empty line that marks the end. */
  function LinesFrom(stream: string, pos: nat): (lines: seq<string>)
    requires pos <= |stream|
    ensures forall i :: 0 <= i < |lines| ==> lines[i] != []
    decreases |stream| - pos
  {
    if pos == |stream| then []
    else [LineAt(stream, pos)] + LinesFrom(stream, LineEnd(stream, pos))
  }

  /** A non-empty read at `pos` is the first of the lines from `pos`, and the rest follow from where it ended. */
  lemma LinesFromStep(stream: string, pos: nat, line: string, next: nat)
    requires pos <= |stream| && next == LineEnd(stream, pos) && line == stream[pos..next] && line != []
    ensures LinesFrom(stream, pos) == [line] + LinesFrom(stream, next)
  {
  }

  /** The lines of the whole stream, as the renderer's reader sees them. */
  function Lines(stream: string): seq<string> {
    LinesFrom(stream, 0)
  }

  /** Joining the successive lines gives back the rest of the stream: nothing is lost or altered. */
  lemma {:induction false} LinesFromConcat(stream: string, pos: nat)
    requires pos <= |stream|
    ensures Concat(LinesFrom(stream, pos)) == stream[pos..]
    decreases |stream| - pos
  {
    if pos < |stream| {
      var e := LineEnd(stream, pos);
      LinesFromConcat(stream, e);
      assert stream[pos..] == stream[pos..e] + stream[e..];
    }
  }

  /** Joining all lines of the stream gives back the stream. */
  lemma LinesConcat(stream: string)
    ensures Concat(Lines(stream)) == stream
  {
    LinesFromConcat(stream, 0);
  }

  /** `abc\r123\n` reads as `abc\r`, then `123\n`, then the empty line. */
  lemma ExampleStream()
    ensures LineAt("abc\r123\n", 0) == "abc\r"
    ensures LineAt("abc\r123\n", 4) == "123\n"
    ensures LineAt("abc\r123\n", 8) == ""
  {
    assert LineEnd("abc\r123\n", 0) == 4;
    assert LineEnd("abc\r123\n", 4) == 8;
  }
}
