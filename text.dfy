/**
 * The handful of Python string and list operations the script relies on:
 * `str.strip()`, `str.startswith`, the substring test `p in s`, `str.lower()`,
 * `str.split` on one character, `sep.join(...)` and `''.join(...)`, plus the
 * notion of an in-order subsequence.
 */
module Text {

  /** Characters for which Python's `str.isspace()` holds, hence those `str.strip()` removes. */
  predicate IsSpace(c: char) {
    || c == ' ' || c == '\t' || c == '\n' || c == '\r' || c == '\U{B}' || c == '\U{C}'
    || ('\U{1C}' <= c <= '\U{1F}') || c == '\U{85}' || c == '\U{A0}' || c == '\U{1680}'
    || ('\U{2000}' <= c <= '\U{200A}') || c == '\U{2028}' || c == '\U{2029}'
    || c == '\U{202F}' || c == '\U{205F}' || c == '\U{3000}'
  }

  /** Index of the first non-space character of `s`, or `|s|` when there is none. */
  function StripStart(s: string): (i: nat)
    ensures i <= |s|
    ensures i < |s| ==> !IsSpace(s[i])
  {
    if s == [] || !IsSpace(s[0]) then 0 else 1 + StripStart(s[1..])
  }

  /** Everything before `StripStart(s)` is whitespace. */
  lemma {:induction false} StripStartSkipsSpaces(s: string)
    ensures forall k :: 0 <= k < StripStart(s) ==> IsSpace(s[k])
    decreases |s|
  {
    if s != [] && IsSpace(s[0]) {
      StripStartSkipsSpaces(s[1..]);
      assert forall k :: 1 <= k < StripStart(s) ==> s[k] == s[1..][k - 1];
    }
  }

  /** Index just past the last non-space character of `s`, or 0 when there is none. */
  function StripEnd(s: string): (j: nat)
    ensures j <= |s|
    ensures 0 < j ==> !IsSpace(s[j - 1])
  {
    if s == [] || !IsSpace(s[|s| - 1]) then |s| else StripEnd(s[..|s| - 1])
  }

  /** Everything from `StripEnd(s)` on is whitespace. */
  lemma {:induction false} StripEndSkipsSpaces(s: string)
    ensures forall k :: StripEnd(s) <= k < |s| ==> IsSpace(s[k])
    decreases |s|
  {
    if s != [] && IsSpace(s[|s| - 1]) {
      StripEndSkipsSpaces(s[..|s| - 1]);
      assert forall k :: StripEnd(s) <= k < |s| - 1 ==> s[k] == s[..|s| - 1][k];
    }
  }

  /** Python's `s.strip()`: `s` without its leading and trailing whitespace. */
  function Strip(s: string): (r: string)
    ensures |r| <= |s|
  {
    var i, j := StripStart(s), StripEnd(s);
    if j <= i then [] else s[i..j]
  }

  /** What `Strip` returns neither starts nor ends with whitespace. */
  lemma StripTrims(s: string)
    ensures var r := Strip(s);
      r != [] ==> !IsSpace(r[0]) && !IsSpace(r[|r| - 1])
  {
  }

  /**
   * `Strip` removes whitespace only: the result is empty exactly when `s` is
   * all whitespace, and otherwise it is the stretch of `s` from its first to
   * its last non-space character.
   */
  lemma StripMeaning(s: string)
    ensures Strip(s) == [] <==> forall k :: 0 <= k < |s| ==> IsSpace(s[k])
    ensures Strip(s) != [] ==> Strip(s) == s[StripStart(s)..StripEnd(s)]
    ensures forall k :: 0 <= k < |s| && !IsSpace(s[k]) ==> StripStart(s) <= k < StripEnd(s)
  {
    StripStartSkipsSpaces(s);
    StripEndSkipsSpaces(s);
  }

  /** A string without whitespace at either end strips to itself, and so does it after one leading space. */
  lemma StripTrimmed(t: string)
    requires t != [] && !IsSpace(t[0]) && !IsSpace(t[|t| - 1])
    ensures Strip(t) == t
    ensures Strip(" " + t) == t
  {
    assert (" " + t)[1..] == t;
    assert StripStart(" " + t) == 1;
    assert StripEnd(" " + t) == |t| + 1;
  }

  /** Python's `s.startswith(p)`. */
  predicate StartsWith(s: string, p: string) {
    |p| <= |s| && s[..|p|] == p
  }

  /** Python's substring test `p in s`. */
  predicate Contains(s: string, p: string)
    decreases |s|
  {
    StartsWith(s, p) || (s != [] && Contains(s[1..], p))
  }

  /** `p` occurs in `s` starting at index `i`. */
  predicate OccursAt(s: string, p: string, i: int) {
    0 <= i <= |s| - |p| && s[i..i + |p|] == p
  }

  /** `Contains` holds exactly when `p` occurs at some index of `s`. */
  lemma {:induction false} ContainsAt(s: string, p: string)
    ensures Contains(s, p) <==> exists i :: OccursAt(s, p, i)
    decreases |s|
  {
    if StartsWith(s, p) {
      assert OccursAt(s, p, 0);
    } else if s != [] {
      ContainsAt(s[1..], p);
      if Contains(s[1..], p) {
        var i :| OccursAt(s[1..], p, i);
        assert OccursAt(s, p, i + 1);
      }
      if exists i :: OccursAt(s, p, i) {
        var i :| OccursAt(s, p, i);
        assert i != 0;
        assert OccursAt(s[1..], p, i - 1);
      }
    }
  }

  /** Index of the first occurrence of `c` in `s`, as Python's `s.index(c)`. */
  function IndexOf(s: string, c: char): (i: nat)
    requires c in s
    ensures i < |s| && s[i] == c && c !in s[..i]
  {
    if s[0] == c then 0 else assert s[0] != c && c in s[1..]; 1 + IndexOf(s[1..], c)
  }

  /**
   * Python's `str.lower()` on one character, for the characters whose lower
   * case is an ASCII letter: the ASCII capitals and the Kelvin sign U+212A,
   * which lowers to `k`. Every other character is kept.
   */
  function LowerChar(c: char): (d: char)
    ensures 'A' <= c <= 'Z' ==> d as int == c as int + 32
    ensures c == '\U{212A}' ==> d == 'k'
    ensures !('A' <= c <= 'Z') && c != '\U{212A}' ==> d == c
  {
    if 'A' <= c <= 'Z' then (c as int + 32) as char
    else if c == '\U{212A}' then 'k'
    else c
  }

  /** Python's `s.lower()`, character by character. */
  function Lower(s: string): (r: string)
    ensures |r| == |s|
    ensures forall k :: 0 <= k < |s| ==> r[k] == LowerChar(s[k])
  {
    seq(|s|, k requires 0 <= k < |s| => LowerChar(s[k]))
  }

  /**
   * A lower-case letter appears after lower-casing only where it, its capital
   * or (for `k`) the Kelvin sign appeared before.
   */
  lemma LowerLacks(s: string, c: char)
    requires 'a' <= c <= 'z' && c !in s && (c as int - 32) as char !in s
    requires c == 'k' ==> '\U{212A}' !in s
    ensures c !in Lower(s)
  {
    forall k | 0 <= k < |s|
      ensures Lower(s)[k] != c
    {
      assert s[k] != c && s[k] != (c as int - 32) as char;
    }
  }

  /** Lower-casing works piece by piece and leaves the space alone. */
  lemma LowerAppend(a: string, b: string)
    ensures Lower(a + b) == Lower(a) + Lower(b)
    ensures Lower(" ") == " "
  {
    assert forall k :: 0 <= k < |a + b| ==> Lower(a + b)[k] == (Lower(a) + Lower(b))[k];
  }

  /** A pattern found on either side of a joining space is found in the joined string. */
  lemma ContainsEitherSide(a: string, b: string, p: string)
    requires Contains(a, p) || Contains(b, p)
    ensures Contains(a + " " + b, p)
  {
    var s := a + " " + b;
    ContainsAt(s, p);
    if Contains(a, p) {
      ContainsAt(a, p);
      var i :| OccursAt(a, p, i);
      assert s[i..i + |p|] == a[i..i + |p|];
      assert OccursAt(s, p, i);
    } else {
      ContainsAt(b, p);
      var j :| OccursAt(b, p, j);
      assert s[|a| + 1..] == b;
      assert s[|a| + 1 + j..|a| + 1 + j + |p|] == s[|a| + 1..][j..j + |p|];
      assert OccursAt(s, p, |a| + 1 + j);
    }
  }

  /** A space-free pattern found in a joined string lies wholly on one side of the joining space. */
  lemma ContainsOneSide(a: string, b: string, p: string)
    requires ' ' !in p && Contains(a + " " + b, p)
    ensures Contains(a, p) || Contains(b, p)
  {
    var s := a + " " + b;
    ContainsAt(s, p);
    var i :| OccursAt(s, p, i);
    assert s[|a|] == ' ';
    assert forall k :: i <= k < i + |p| ==> s[k] == p[k - i];
    if i + |p| <= |a| {
      ContainsAt(a, p);
      assert a[i..i + |p|] == s[i..i + |p|];
      assert OccursAt(a, p, i);
    } else if i >= |a| + 1 {
      ContainsAt(b, p);
      assert s[|a| + 1..] == b;
      assert b[i - |a| - 1..i - |a| - 1 + |p|] == s[|a| + 1..][i - |a| - 1..i - |a| - 1 + |p|];
      assert OccursAt(b, p, i - |a| - 1);
    } else {
      assert false;
    }
  }

  /** A space-free pattern occurs across a joining space exactly when it occurs on one side of it. */
  lemma ContainsAcrossSpace(a: string, b: string, p: string)
    requires ' ' !in p
    ensures Contains(a + " " + b, p) <==> Contains(a, p) || Contains(b, p)
  {
    if Contains(a, p) || Contains(b, p) {
      ContainsEitherSide(a, b, p);
    }
    if Contains(a + " " + b, p) {
      ContainsOneSide(a, b, p);
    }
  }

  /** A pattern with a character the string lacks does not occur in it. */
  lemma ContainsNeedsChar(s: string, p: string, c: char)
    requires c in p && c !in s
    ensures !Contains(s, p)
  {
    ContainsAt(s, p);
  }

  /** Python's `sep.join(words)`. */
  function Join(sep: string, words: seq<string>): string
    decreases |words|
  {
    if words == [] then ""
    else if |words| == 1 then words[0]
    else words[0] + sep + Join(sep, words[1..])
  }

  /** `IndexOf` is the only index holding `c` with no `c` before it. */
  lemma IndexOfAt(s: string, c: char, i: nat)
    requires i < |s| && s[i] == c && c !in s[..i]
    ensures IndexOf(s, c) == i
  {
  }

  /** Python's `s.split(c)` for a one-character separator: the pieces between the occurrences of `c`. */
  function Split(s: string, c: char): (parts: seq<string>)
    ensures parts != []
    decreases |s|
  {
    if c !in s then [s]
    else
      var i := IndexOf(s, c);
      [s[..i]] + Split(s[i + 1..], c)
  }

  /** Splitting at `c` and joining with `c` gives back the string, and no piece holds `c`. */
  lemma {:induction false} SplitJoin(s: string, c: char)
    ensures Join([c], Split(s, c)) == s
    ensures forall k :: 0 <= k < |Split(s, c)| ==> c !in Split(s, c)[k]
    decreases |s|
  {
    if c in s {
      var i := IndexOf(s, c);
      var rest := Split(s[i + 1..], c);
      SplitJoin(s[i + 1..], c);
      assert Split(s, c) == [s[..i]] + rest;
      assert ([s[..i]] + rest)[1..] == rest;
      assert Join([c], Split(s, c)) == s[..i] + [c] + Join([c], rest);
      assert s == s[..i] + [c] + s[i + 1..];
      forall k | 1 <= k < |Split(s, c)|
        ensures c !in Split(s, c)[k]
      {
        assert Split(s, c)[k] == rest[k - 1];
      }
    }
  }

  /** Joining `c`-free pieces with `c` and splitting at `c` gives back the pieces. */
  lemma {:induction false} JoinSplit(parts: seq<string>, c: char)
    requires parts != [] && forall k :: 0 <= k < |parts| ==> c !in parts[k]
    ensures Split(Join([c], parts), c) == parts
    decreases |parts|
  {
    if |parts| > 1 {
      var first, others := parts[0], parts[1..];
      var rest := Join([c], others);
      var s := Join([c], parts);
      assert s == first + [c] + rest;
      assert s[..|first|] == first;
      assert s[|first|] == c;
      IndexOfAt(s, c, |first|);
      assert s[|first| + 1..] == rest;
      assert Split(s, c) == [first] + Split(rest, c);
      forall k | 0 <= k < |others|
        ensures c !in others[k]
      {
        assert others[k] == parts[k + 1];
      }
      JoinSplit(others, c);
      assert parts == [first] + others;
    }
  }

  /**
   * With `c` present, the first piece ends at the first `c`; there are exactly
   * two pieces when no other `c` follows it, and the second is then all that follows.
   */
  lemma SplitOnce(s: string, c: char)
    requires c in s
    ensures var i := IndexOf(s, c);
      && Split(s, c)[0] == s[..i]
      && (|Split(s, c)| == 2 <==> c !in s[i + 1..])
      && (c !in s[i + 1..] ==> Split(s, c) == [s[..i], s[i + 1..]])
  {
    var i := IndexOf(s, c);
    var after := s[i + 1..];
    assert Split(s, c) == [s[..i]] + Split(after, c);
    if c in after {
      var j := IndexOf(after, c);
      assert Split(after, c) == [after[..j]] + Split(after[j + 1..], c);
    }
  }

  /** Python's `''.join(pieces)`. */
  function Concat(pieces: seq<string>): string
    decreases |pieces|
  {
    if pieces == [] then "" else pieces[0] + Concat(pieces[1..])
  }

  /** Concatenation regroups freely. */
  lemma AppendAssoc<T>(a: seq<T>, b: seq<T>, c: seq<T>)
    ensures (a + b) + c == a + (b + c)
  {
  }

  /** `xs` is `ys` with some elements dropped and the rest kept in order. */
  predicate IsSubsequence<T(==)>(xs: seq<T>, ys: seq<T>)
    decreases |ys|
  {
    if xs == [] then true
    else if ys == [] then false
    else (xs[0] == ys[0] && IsSubsequence(xs[1..], ys[1..])) || IsSubsequence(xs, ys[1..])
  }
}
