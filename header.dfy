/**
 * `extract_arguments`: the leading comment block of a scene file, read as
 * extra renderer flags. The file is given as its sequence of lines.
 */
module Header {
  import opened Text

  /** How the scan treats one line of the scene file. */
  datatype LineKind =
    | Argument(text: string)  // `//` but not `////`: the stripped text after the marker
    | Blank                   // empty once stripped: skipped
    | Stop                    // anything else, a `////` remark included: ends the scan

  /** The classification applied to each line, after `line.strip()`. */
  function Classify(line: string): LineKind {
    var t := Strip(line);
    if StartsWith(t, "//") && !StartsWith(t, "////") then Argument(Strip(t[2..]))
    else if t == [] then Blank
    else Stop
  }

  /**
   * A line is an argument exactly when, stripped, it starts with `//` but not
   * with `////`, and its text is what follows the marker, stripped again; it is
   * blank exactly when it is all whitespace; anything else stops the scan.
   */
  lemma ClassifyMeaning(line: string)
    ensures var k := Classify(line);
      && (k.Argument? <==> StartsWith(Strip(line), "//") && !StartsWith(Strip(line), "////"))
      && (k.Blank? <==> forall i :: 0 <= i < |line| ==> IsSpace(line[i]))
      && (k.Stop? <==> Strip(line) != [] && !(StartsWith(Strip(line), "//") && !StartsWith(Strip(line), "////")))
      && (k.Argument? ==> k.text == Strip(Strip(line)[2..]))
      && (k.Argument? && k.text != [] ==> !IsSpace(k.text[0]) && !IsSpace(k.text[|k.text| - 1]))
  {
    StripMeaning(line);
    if StartsWith(Strip(line), "//") {
      StripTrims(Strip(line)[2..]);
    }
  }

  /** The classification of every line, in order. */
  function Kinds(lines: seq<string>): (ks: seq<LineKind>)
    ensures |ks| == |lines|
    decreases |lines|
  {
    if lines == [] then [] else [Classify(lines[0])] + Kinds(lines[1..])
  }

  /**
   * The scan over classified lines: an argument contributes its text, a blank
   * line nothing, and a stop line ends the scan.
   */
  function Scan(ks: seq<LineKind>): seq<string>
    decreases |ks|
  {
    if ks == [] then []
    else match ks[0]
      case Argument(t) => [t] + Scan(ks[1..])
      case Blank => Scan(ks[1..])
      case Stop => []
  }

  /** The header arguments of `lines`: what `ExtractArguments` returns. */
  function HeaderArgs(lines: seq<string>): seq<string> {
    Scan(Kinds(lines))
  }

  /** Some line of `lines` ends the scan. */
  predicate HasStop(lines: seq<string>) {
    Stop in Kinds(lines)
  }

  /** The texts of all argument kinds in `ks`, in order, with no stop rule. */
  function ArgumentTexts(ks: seq<LineKind>): (r: seq<string>)
    ensures |r| <= |ks|
    decreases |ks|
  {
    if ks == [] then []
    else (if ks[0].Argument? then [ks[0].text] else []) + ArgumentTexts(ks[1..])
  }

  /** Index of the first stop kind in `ks`, or `|ks|` when there is none. */
  function FirstStop(ks: seq<LineKind>): (n: nat)
    ensures n <= |ks|
    ensures forall i :: 0 <= i < n ==> !ks[i].Stop?
    ensures n < |ks| ==> ks[n].Stop?
    decreases |ks|
  {
    if ks == [] || ks[0].Stop? then 0 else 1 + FirstStop(ks[1..])
  }

  /**
   * The Python loop: append the text of each argument line, skip blank lines,
   * and break at the first other line.
   */
  method ExtractArguments(lines: seq<string>) returns (arguments: seq<string>)
    ensures arguments == HeaderArgs(lines)
  {
    ghost var ks := Kinds(lines);
    arguments := [];
    for i := 0 to |lines|
      invariant arguments + Scan(ks[i..]) == Scan(ks)
    {
      assert ks[i..][1..] == ks[i + 1..];
      var kind := ClassifyLine(lines, i);
      if kind.Argument? {
        AppendAssoc(arguments, [kind.text], Scan(ks[i + 1..]));
        arguments := arguments + [kind.text];
      } else if !kind.Blank? {
        return;
      }
    }
  }

  /** The tests the loop body makes on line `i`: strip it, then look at its marker. */
  method ClassifyLine(lines: seq<string>, i: nat) returns (kind: LineKind)
    requires i < |lines|
    ensures kind == Kinds(lines)[i]
  {
    KindsAt(lines, i);
    var line := Strip(lines[i]);
    if StartsWith(line, "//") && !StartsWith(line, "////") {
      kind := Argument(Strip(line[2..]));
    } else if line != [] {
      kind := Stop;
    } else {
      kind := Blank;
    }
  }

  /** Line `i` is classified as `Classify(lines[i])`. */
  lemma {:induction false} KindsAt(lines: seq<string>, i: nat)
    requires i < |lines|
    ensures Kinds(lines)[i] == Classify(lines[i])
    decreases i
  {
    if i > 0 {
      KindsAt(lines[1..], i - 1);
      assert lines[1..][i - 1] == lines[i];
    }
  }

  /** Classifying `a + b` classifies `a`, then `b`. */
  lemma {:induction false} KindsAppend(a: seq<string>, b: seq<string>)
    ensures Kinds(a + b) == Kinds(a) + Kinds(b)
    decreases |a|
  {
    if a == [] {
      assert a + b == b;
    } else {
      assert (a + b)[0] == a[0];
      assert (a + b)[1..] == a[1..] + b;
      KindsAppend(a[1..], b);
    }
  }

  /**
   * The scan yields exactly the argument texts before the first stop line, in
   * order: blank lines contribute nothing and every line from the first stop
   * line on is ignored.
   */
  lemma {:induction false} ScanIsArgumentTextsBeforeStop(ks: seq<LineKind>)
    ensures Scan(ks) == ArgumentTexts(ks[..FirstStop(ks)])
    decreases |ks|
  {
    if ks != [] && !ks[0].Stop? {
      ScanIsArgumentTextsBeforeStop(ks[1..]);
      assert ks[..FirstStop(ks)][1..] == ks[1..][..FirstStop(ks[1..])];
    }
  }

  /** Scanning `a` then `b`: `b` is reached only when `a` has no stop kind. */
  lemma {:induction false} ScanAppend(a: seq<LineKind>, b: seq<LineKind>)
    ensures Stop in a ==> Scan(a + b) == Scan(a)
    ensures Stop !in a ==> Scan(a + b) == Scan(a) + Scan(b)
    decreases |a|
  {
    if a == [] {
      assert a + b == b;
    } else {
      assert (a + b)[0] == a[0];
      assert (a + b)[1..] == a[1..] + b;
      assert Stop in a <==> a[0] == Stop || Stop in a[1..];
      ScanAppend(a[1..], b);
    }
  }

  /** Reading the lines `a` then `b`: `b` is reached only when `a` has no stop line. */
  lemma HeaderArgsAppend(a: seq<string>, b: seq<string>)
    ensures HasStop(a) ==> HeaderArgs(a + b) == HeaderArgs(a)
    ensures !HasStop(a) ==> HeaderArgs(a + b) == HeaderArgs(a) + HeaderArgs(b)
  {
    KindsAppend(a, b);
    ScanAppend(Kinds(a), Kinds(b));
  }

  /** A blank line anywhere in the file, even before the first comment, changes nothing. */
  lemma BlankLineIsSkipped(a: seq<string>, blank: string, b: seq<string>)
    requires Classify(blank).Blank?
    ensures HeaderArgs(a + [blank] + b) == HeaderArgs(a + b)
  {
    assert a + [blank] + b == a + ([blank] + b);
    HeaderArgsAppend(a, [blank] + b);
    HeaderArgsAppend(a, b);
    KindsAppend([blank], b);
    assert Kinds([blank]) == [Blank];
    assert ([Blank] + Kinds(b))[1..] == Kinds(b);
  }

  /** Nothing after a stop line, a `////` remark included, is read. */
  lemma StopLineEndsScan(a: seq<string>, stop: string, b: seq<string>)
    requires Classify(stop).Stop?
    ensures HeaderArgs(a + [stop] + b) == HeaderArgs(a)
  {
    assert a + [stop] + b == a + ([stop] + b);
    KindsAppend(a, [stop] + b);
    KindsAppend([stop], b);
    assert Kinds([stop]) == [Stop];
    ScanAppend(Kinds(a), Kinds([stop] + b));
  }

  /** An already stripped line with the `//` marker but not `////` is an argument line. */
  lemma MarkedLineIsArgument(line: string)
    requires Strip(line) == line && StartsWith(line, "//") && !StartsWith(line, "////")
    ensures Classify(line) == Argument(Strip(line[2..]))
  {
  }

  /** A comment line `// flag` carries the flag as its argument. */
  lemma CommentLineIsArgument(flag: string)
    requires flag != [] && !IsSpace(flag[0]) && !IsSpace(flag[|flag| - 1])
    ensures Classify("// " + flag) == Argument(flag)
  {
    var line := "// " + flag;
    assert Strip(line) == line by {
      assert line[0] == '/' && line[|line| - 1] == flag[|flag| - 1];
      StripTrimmed(line);
    }
    assert Strip(line[2..]) == flag by {
      assert line == "//" + (" " + flag);
      assert line[2..] == " " + flag;
      StripTrimmed(flag);
    }
    assert StartsWith(line, "//") by {
      assert line[..2] == "//";
    }
    assert !StartsWith(line, "////") by {
      if |line| >= 4 {
        assert line[..4][2] == ' ';
      }
    }
    MarkedLineIsArgument(line);
  }

  /** From the `////` remark on, nothing is extracted. */
  lemma ExampleFromRemark()
    ensures HeaderArgs(["//// note", "", "#include \"colors.inc\""]) == []
  {
    StripTrimmed("//// note");
    assert Classify("//// note") == Stop;
  }

  /** From the second flag on, only that flag is extracted. */
  lemma ExampleFromSecondFlag()
    ensures HeaderArgs(["// -h600", "//// note", "", "#include \"colors.inc\""]) == ["-h600"]
  {
    var lines := ["// -h600", "//// note", "", "#include \"colors.inc\""];
    assert lines[0] == "// " + "-h600";
    CommentLineIsArgument("-h600");
    ExampleFromRemark();
    assert lines[1..] == ["//// note", "", "#include \"colors.inc\""];
  }

  /**
   * A header of two flags, a `////` remark, a blank line and scene code
   * yields exactly the two flags.
   */
  lemma ExampleHeader()
    ensures HeaderArgs(["// -w800", "// -h600", "//// note", "", "#include \"colors.inc\""])
            == ["-w800", "-h600"]
  {
    var lines := ["// -w800", "// -h600", "//// note", "", "#include \"colors.inc\""];
    assert lines[0] == "// " + "-w800";
    CommentLineIsArgument("-w800");
    ExampleFromSecondFlag();
    assert lines[1..] == ["// -h600", "//// note", "", "#include \"colors.inc\""];
  }
}
