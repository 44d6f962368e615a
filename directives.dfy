/**
 * The first half of `render_gif`: the header arguments are split into
 * renderer flags (`prog_args`) and `key=value` timing directives, which fill
 * the `clock_args` dictionary. Python's `float(value)` is the parameter
 * `parse`, `None` where `float` raises.
 */
module Directives {
  import opened Wrappers
  import opened Text

  /** The exceptions `render_gif` raises before the clip is built. */
  datatype Error =
    | TooManyValues(arg: string)  // `key,value = arg.split('=')` with more than two pieces
    | NotAFloat(arg: string)      // `float(value)` rejects the value of a timing directive
    | FpsMustBeSet
    | FinalClockMustBeSet
    | FinalFrameMustBeSet
    | ZeroDivision                // a division by zero in the timing arithmetic

  /** The text each configuration error is raised with. */
  function Message(e: Error): string {
    match e
    case TooManyValues(_) => "too many values to unpack (expected 2)"
    case NotAFloat(_) => "could not convert string to float"
    case FpsMustBeSet => "FPS must be set at top of file"
    case FinalClockMustBeSet => "Final_Clock must be set at top of file"
    case FinalFrameMustBeSet => "Final_Frame must be set at top of file"
    case ZeroDivision => "float division by zero"
  }

  /** The keys of the `clock_args` dictionary. */
  datatype ClockKey = Fps | InitialClock | FinalClock | InitialFrame | FinalFrame

  /** The dictionary key a stripped, lower-cased directive name stands for, if any: `key in clock_args`. */
  function KeyNamed(name: string): Option<ClockKey> {
    if name == "fps" then Some(Fps)
    else if name == "initial_clock" then Some(InitialClock)
    else if name == "final_clock" then Some(FinalClock)
    else if name == "initial_frame" then Some(InitialFrame)
    else if name == "final_frame" then Some(FinalFrame)
    else None
  }

  /** The `clock_args` dictionary: the two initial values always present, the rest possibly `None`. */
  datatype ClockArgs = ClockArgs(
    fps: Option<real>,
    initialClock: real,
    finalClock: Option<real>,
    initialFrame: real,
    finalFrame: Option<real>)
  {
    /** `clock_args[key] = v`. */
    function With(key: ClockKey, v: real): ClockArgs {
      match key
      case Fps => this.(fps := Some(v))
      case InitialClock => this.(initialClock := v)
      case FinalClock => this.(finalClock := Some(v))
      case InitialFrame => this.(initialFrame := v)
      case FinalFrame => this.(finalFrame := Some(v))
    }
  }

  /** The dictionary before any directive is read. */
  const Defaults := ClockArgs(None, 0.0, None, 0.0, None)

  /** How the partition loop treats one argument. */
  datatype ArgKind =
    | Flag                                     // passed on to the renderer
    | Directive(key: ClockKey, value: string)  // a timing directive
    | Unpackable                               // a second `=`: the two-name unpacking raises

  /**
   * The classification of one argument, in the order the Python loop tests it:
   * no `=`, then a second `=` after the first, then the name before the `=`.
   */
  function Kind(arg: string): ArgKind {
    if '=' !in arg then Flag
    else
      var i := IndexOf(arg, '=');
      if '=' in arg[i + 1..] then Unpackable
      else
        match KeyNamed(Lower(Strip(arg[..i])))
        case Some(key) => Directive(key, arg[i + 1..])
        case None => Flag
  }

  /**
   * The classification against Python's `arg.split('=')`: the two-name
   * unpacking fails exactly when there are more than two pieces; an argument
   * is a directive exactly when there are two pieces and the stripped,
   * lower-cased first one names a dictionary key, and it then carries the
   * second piece; every other argument, one piece or an unknown name, is a flag.
   */
  lemma KindMeaning(arg: string)
    ensures var parts := Split(arg, '=');
      && (Kind(arg).Unpackable? <==> |parts| > 2)
      && (Kind(arg).Directive? <==> |parts| == 2 && KeyNamed(Lower(Strip(parts[0]))).Some?)
      && (Kind(arg).Directive? ==>
            Kind(arg) == Directive(KeyNamed(Lower(Strip(parts[0]))).value, parts[1]))
      && (Kind(arg).Flag? <==> |parts| == 1 || (|parts| == 2 && KeyNamed(Lower(Strip(parts[0]))).None?))
  {
    if '=' in arg {
      SplitOnce(arg, '=');
    }
  }

  /** `name=value` with a single `=` and a dictionary key for a name is a directive carrying `value`. */
  lemma DirectiveOf(name: string, value: string, key: ClockKey)
    requires '=' !in name && '=' !in value && KeyNamed(Lower(Strip(name))) == Some(key)
    ensures Kind(name + "=" + value) == Directive(key, value)
  {
    var arg := name + "=" + value;
    IndexOfAt(arg, '=', |name|);
    assert arg[..|name|] == name && arg[|name| + 1..] == value;
  }

  /** The name of the directive below, lower-cased. */
  lemma LowerKelvinName()
    ensures Lower("Final_Cloc\U{212A}") == "final_clock"
  {
  }

  /** `str.lower()` turns the Kelvin sign into `k`, so `Final_Cloc\U{212A}=10` sets the final clock. */
  lemma ExampleKelvinSign()
    ensures Kind("Final_Cloc\U{212A}" + "=" + "10") == Directive(FinalClock, "10")
  {
    var name := "Final_Cloc\U{212A}";
    assert '=' !in name && '=' !in "10";
    assert KeyNamed(Lower(Strip(name))) == Some(FinalClock) by {
      StripTrimmed(name);
      LowerKelvinName();
    }
    DirectiveOf(name, "10", FinalClock);
  }

  /** An argument together with its classification. */
  datatype Classified = Classified(arg: string, kind: ArgKind)

  /** Each argument with its classification, in order. */
  function ClassifyAll(args: seq<string>): (cs: seq<Classified>)
    ensures |cs| == |args|
    decreases |args|
  {
    if args == [] then [] else [Classified(args[0], Kind(args[0]))] + ClassifyAll(args[1..])
  }

  /** The exception, if any, the loop raises on a classified argument. */
  function FaultOf(c: Classified, parse: string -> Option<real>): Option<Error> {
    match c.kind
    case Unpackable => Some(TooManyValues(c.arg))
    case Directive(_, value) => if parse(value).None? then Some(NotAFloat(c.arg)) else None
    case Flag => None
  }

  /** The exception of the first faulty argument, if any. */
  function FirstFaultOf(cs: seq<Classified>, parse: string -> Option<real>): Option<Error>
    decreases |cs|
  {
    if cs == [] then None
    else if FaultOf(cs[0], parse).Some? then FaultOf(cs[0], parse)
    else FirstFaultOf(cs[1..], parse)
  }

  /** The flags, in order. */
  function ProgArgsOf(cs: seq<Classified>): seq<string>
    decreases |cs|
  {
    if cs == [] then []
    else (if cs[0].kind.Flag? then [cs[0].arg] else []) + ProgArgsOf(cs[1..])
  }

  /** `c` is a timing directive for `key`. */
  predicate SetsKey(c: Classified, key: ClockKey) {
    c.kind.Directive? && c.kind.key == key
  }

  /** The value of the last directive for `key`, if there is one. */
  function LastValueOf(cs: seq<Classified>, key: ClockKey, parse: string -> Option<real>): Option<real>
    decreases |cs|
  {
    if cs == [] then None
    else if SetsKey(cs[|cs| - 1], key) then parse(cs[|cs| - 1].kind.value)
    else LastValueOf(cs[..|cs| - 1], key, parse)
  }

  /** The dictionary after the loop: each key holds its last directive's value, or its default. */
  function SettingsOf(cs: seq<Classified>, parse: string -> Option<real>): ClockArgs {
    ClockArgs(
      LastValueOf(cs, Fps, parse),
      match LastValueOf(cs, InitialClock, parse) case Some(v) => v case None => 0.0,
      LastValueOf(cs, FinalClock, parse),
      match LastValueOf(cs, InitialFrame, parse) case Some(v) => v case None => 0.0,
      LastValueOf(cs, FinalFrame, parse))
  }

  /** The exception the loop raises on `args`, if any. */
  function FirstFault(args: seq<string>, parse: string -> Option<real>): Option<Error> {
    FirstFaultOf(ClassifyAll(args), parse)
  }

  /** `prog_args`: the arguments that are not timing directives, in order. */
  function ProgArgs(args: seq<string>): seq<string> {
    ProgArgsOf(ClassifyAll(args))
  }

  /** The value the last directive for `key` in `args` gives, if any. */
  function LastValue(args: seq<string>, key: ClockKey, parse: string -> Option<real>): Option<real> {
    LastValueOf(ClassifyAll(args), key, parse)
  }

  /** `clock_args` after the loop over `args`. */
  function Settings(args: seq<string>, parse: string -> Option<real>): ClockArgs {
    SettingsOf(ClassifyAll(args), parse)
  }

  /** The loop's result: renderer flags and the filled-in dictionary. */
  datatype Partition = Partition(progArgs: seq<string>, clockArgs: ClockArgs)

  /** Entry `i` is argument `i` with its classification. */
  lemma {:induction false} ClassifyAllAt(args: seq<string>, i: nat)
    requires i < |args|
    ensures ClassifyAll(args)[i] == Classified(args[i], Kind(args[i]))
    decreases i
  {
    if i > 0 {
      ClassifyAllAt(args[1..], i - 1);
    }
  }

  /** Classifying `a + b` classifies `a`, then `b`. */
  lemma {:induction false} ClassifyAllAppend(a: seq<string>, b: seq<string>)
    ensures ClassifyAll(a + b) == ClassifyAll(a) + ClassifyAll(b)
    decreases |a|
  {
    if a == [] {
      assert a + b == b;
    } else {
      assert (a + b)[0] == a[0];
      assert (a + b)[1..] == a[1..] + b;
      ClassifyAllAppend(a[1..], b);
      AppendAssoc([Classified(a[0], Kind(a[0]))], ClassifyAll(a[1..]), ClassifyAll(b));
    }
  }

  /** The classification of a prefix is a prefix of the classification. */
  lemma ClassifyAllPrefix(args: seq<string>, i: nat)
    requires i <= |args|
    ensures ClassifyAll(args[..i]) == ClassifyAll(args)[..i]
  {
    assert args == args[..i] + args[i..];
    ClassifyAllAppend(args[..i], args[i..]);
  }

  /** With nothing raised before entry `i`, a faulty entry `i` decides the exception. */
  lemma {:induction false} FirstFaultOfAt(cs: seq<Classified>, i: nat, parse: string -> Option<real>)
    requires i < |cs| && FirstFaultOf(cs[..i], parse).None? && FaultOf(cs[i], parse).Some?
    ensures FirstFaultOf(cs, parse) == FaultOf(cs[i], parse)
    decreases i
  {
    if i > 0 {
      assert cs[..i][0] == cs[0] && cs[..i][1..] == cs[1..][..i - 1];
      FirstFaultOfAt(cs[1..], i - 1, parse);
    }
  }

  /** With nothing raised in `a`, one more entry raises exactly its own exception. */
  lemma {:induction false} FirstFaultOfAppend(a: seq<Classified>, c: Classified, parse: string -> Option<real>)
    requires FirstFaultOf(a, parse).None?
    ensures FirstFaultOf(a + [c], parse) == FaultOf(c, parse)
    decreases |a|
  {
    if a == [] {
      assert [c][1..] == [];
    } else {
      assert (a + [c])[1..] == a[1..] + [c];
      FirstFaultOfAppend(a[1..], c, parse);
    }
  }

  /** One more entry extends the flags by its argument exactly when it is a flag. */
  lemma {:induction false} ProgArgsOfAppend(a: seq<Classified>, c: Classified)
    ensures ProgArgsOf(a + [c]) == ProgArgsOf(a) + (if c.kind.Flag? then [c.arg] else [])
    decreases |a|
  {
    if a == [] {
      assert [c][1..] == [];
    } else {
      assert (a + [c])[0] == a[0];
      assert (a + [c])[1..] == a[1..] + [c];
      ProgArgsOfAppend(a[1..], c);
      AppendAssoc(if a[0].kind.Flag? then [a[0].arg] else [], ProgArgsOf(a[1..]),
                  if c.kind.Flag? then [c.arg] else []);
    }
  }

  /** The first `n` entries hold as many flags as `ProgArgsOf` keeps of them. */
  lemma {:induction false} ProgArgsOfCount(cs: seq<Classified>, n: nat)
    requires n <= |cs|
    ensures |ProgArgsOf(cs[..n])| == |set j | 0 <= j < n && cs[j].kind.Flag?|
    decreases n
  {
    if n > 0 {
      ProgArgsOfCount(cs, n - 1);
      assert cs[..n] == cs[..n - 1] + [cs[n - 1]];
      ProgArgsOfAppend(cs[..n - 1], cs[n - 1]);
      var before := set j | 0 <= j < n - 1 && cs[j].kind.Flag?;
      if cs[n - 1].kind.Flag? {
        assert (set j | 0 <= j < n && cs[j].kind.Flag?) == before + {n - 1};
      } else {
        assert (set j | 0 <= j < n && cs[j].kind.Flag?) == before;
      }
    }
  }

  /** One more entry replaces the last value of `key` exactly when it is a directive for `key`. */
  lemma LastValueOfAppend(a: seq<Classified>, c: Classified, key: ClockKey, parse: string -> Option<real>)
    ensures LastValueOf(a + [c], key, parse)
            == if SetsKey(c, key) then parse(c.kind.value) else LastValueOf(a, key, parse)
  {
    assert (a + [c])[..|a|] == a;
    assert (a + [c])[|a|] == c;
  }

  /** One more fault-free entry updates the dictionary only when it is a directive. */
  lemma SettingsOfAppend(a: seq<Classified>, c: Classified, parse: string -> Option<real>)
    requires FaultOf(c, parse).None?
    ensures c.kind.Flag? ==> SettingsOf(a + [c], parse) == SettingsOf(a, parse)
    ensures c.kind.Directive? ==>
              SettingsOf(a + [c], parse) == SettingsOf(a, parse).With(c.kind.key, parse(c.kind.value).value)
  {
    LastValueOfAppend(a, c, Fps, parse);
    LastValueOfAppend(a, c, InitialClock, parse);
    LastValueOfAppend(a, c, FinalClock, parse);
    LastValueOfAppend(a, c, InitialFrame, parse);
    LastValueOfAppend(a, c, FinalFrame, parse);
  }

  /** A fault-free entry carries the three loop facts from `cs[..i]` to `cs[..i + 1]`. */
  lemma StepAt(cs: seq<Classified>, i: nat, parse: string -> Option<real>)
    requires i < |cs| && FirstFaultOf(cs[..i], parse).None? && FaultOf(cs[i], parse).None?
    ensures FirstFaultOf(cs[..i + 1], parse).None?
    ensures ProgArgsOf(cs[..i + 1]) == ProgArgsOf(cs[..i]) + (if cs[i].kind.Flag? then [cs[i].arg] else [])
    ensures cs[i].kind.Flag? ==> SettingsOf(cs[..i + 1], parse) == SettingsOf(cs[..i], parse)
    ensures cs[i].kind.Directive? ==>
              SettingsOf(cs[..i + 1], parse)
              == SettingsOf(cs[..i], parse).With(cs[i].kind.key, parse(cs[i].kind.value).value)
  {
    assert cs[..i + 1] == cs[..i] + [cs[i]];
    FirstFaultOfAppend(cs[..i], cs[i], parse);
    ProgArgsOfAppend(cs[..i], cs[i]);
    SettingsOfAppend(cs[..i], cs[i], parse);
  }

  /**
   * The tests the Python loop makes on one argument: an `=` at all, more than
   * one `=` (the unpacking raises), and whether the stripped, lower-cased name
   * before the `=` is a dictionary key.
   */
  method ClassifyArgument(args: seq<string>, i: nat) returns (kind: ArgKind)
    requires i < |args|
    ensures ClassifyAll(args)[i] == Classified(args[i], kind)
  {
    ClassifyAllAt(args, i);
    KindMeaning(args[i]);
    var arg := args[i];
    if '=' !in arg {
      return Flag;
    }
    var parts := Split(arg, '=');
    if |parts| != 2 {
      return Unpackable;
    }
    var key, value := parts[0], parts[1];
    var name := KeyNamed(Lower(Strip(key)));
    if name.None? {
      return Flag;
    }
    return Directive(name.value, value);
  }

  /**
   * The partition loop: a flag is kept, a directive overwrites its key in the
   * dictionary, and the first argument that cannot be unpacked or parsed raises.
   */
  method PartitionArguments(args: seq<string>, parse: string -> Option<real>)
    returns (r: Result<Partition, Error>)
    ensures FirstFault(args, parse).Some? ==> r == Err(FirstFault(args, parse).value)
    ensures FirstFault(args, parse).None? ==> r == Ok(Partition(ProgArgs(args), Settings(args, parse)))
  {
    ghost var cs := ClassifyAll(args);
    var progArgs: seq<string> := [];
    var clockArgs := Defaults;
    for i := 0 to |args|
      invariant FirstFaultOf(cs[..i], parse).None?
      invariant progArgs == ProgArgsOf(cs[..i])
      invariant clockArgs == SettingsOf(cs[..i], parse)
    {
      var arg := args[i];
      var kind := ClassifyArgument(args, i);
      match kind
      case Unpackable =>
        FirstFaultOfAt(cs, i, parse);
        return Err(TooManyValues(arg));
      case Directive(key, value) =>
        var v := parse(value);
        if v.None? {
          FirstFaultOfAt(cs, i, parse);
          return Err(NotAFloat(arg));
        }
        StepAt(cs, i, parse);
        clockArgs := clockArgs.With(key, v.value);
      case Flag =>
        StepAt(cs, i, parse);
        progArgs := progArgs + [arg];
    }
    assert cs[..|args|] == cs;
    r := Ok(Partition(progArgs, clockArgs));
  }

  /**
   * An argument that splits at `=` into more than two pieces, reached with no
   * exception before it, raises the unpacking error, whatever its name.
   */
  lemma UnpackingFails(args: seq<string>, i: nat, parse: string -> Option<real>)
    requires i < |args| && FirstFault(args[..i], parse).None? && |Split(args[i], '=')| > 2
    ensures FirstFault(args, parse) == Some(TooManyValues(args[i]))
  {
    ClassifyAllPrefix(args, i);
    ClassifyAllAt(args, i);
    KindMeaning(args[i]);
    FirstFaultOfAt(ClassifyAll(args), i, parse);
  }

  /** The exception reported for the list is that of one of its arguments, an unpacking or a float error. */
  lemma {:induction false} FirstFaultNamesArgument(args: seq<string>, parse: string -> Option<real>)
    ensures FirstFault(args, parse).Some? ==>
              exists i :: 0 <= i < |args| &&
                (FirstFault(args, parse) == Some(TooManyValues(args[i]))
                 || FirstFault(args, parse) == Some(NotAFloat(args[i])))
    decreases |args|
  {
    if args != [] {
      var c := Classified(args[0], Kind(args[0]));
      assert ClassifyAll(args) == [c] + ClassifyAll(args[1..]);
      if FaultOf(c, parse).None? {
        FirstFaultNamesArgument(args[1..], parse);
        if FirstFault(args, parse).Some? {
          var i :| 0 <= i < |args[1..]| &&
            (FirstFault(args[1..], parse) == Some(TooManyValues(args[1..][i]))
             || FirstFault(args[1..], parse) == Some(NotAFloat(args[1..][i])));
          assert args[1..][i] == args[i + 1];
        }
      } else {
        assert FirstFault(args, parse) == FaultOf(c, parse);
      }
    }
  }

  /**
   * Over classified entries whose arguments are `args`: the flags are flag
   * entries, every flag entry's argument is among them, and they keep the
   * order of `args`.
   */
  lemma {:induction false} ProgArgsOfMeaning(cs: seq<Classified>, args: seq<string>)
    requires |cs| == |args| && forall j :: 0 <= j < |cs| ==> cs[j].arg == args[j]
    ensures forall i :: 0 <= i < |ProgArgsOf(cs)| ==> Classified(ProgArgsOf(cs)[i], Flag) in cs
    ensures forall j :: 0 <= j < |cs| && cs[j].kind.Flag? ==> args[j] in ProgArgsOf(cs)
    ensures IsSubsequence(ProgArgsOf(cs), args)
    ensures |ProgArgsOf(cs)| == |set j | 0 <= j < |cs| && cs[j].kind.Flag?|
    decreases |cs|
  {
    ProgArgsOfCount(cs, |cs|);
    assert cs[..|cs|] == cs;
    if cs != [] {
      var rest := ProgArgsOf(cs[1..]);
      ProgArgsOfMeaning(cs[1..], args[1..]);
      forall j | 1 <= j < |cs| && cs[j].kind.Flag?
        ensures args[j] in ProgArgsOf(cs)
      {
        assert cs[1..][j - 1] == cs[j] && args[1..][j - 1] == args[j];
      }
      forall i | 0 <= i < |rest|
        ensures Classified(rest[i], Flag) in cs
      {
        assert Classified(rest[i], Flag) in cs[1..];
      }
      if cs[0].kind.Flag? {
        assert ProgArgsOf(cs) == [args[0]] + rest;
        assert ([args[0]] + rest)[1..] == rest;
        assert cs[0] == Classified(args[0], Flag);
      } else {
        assert ProgArgsOf(cs) == rest;
      }
    }
  }

  /** The flag entries of the classification are at the indices of the flag arguments. */
  lemma FlagIndices(args: seq<string>)
    ensures var cs := ClassifyAll(args);
      (set j | 0 <= j < |cs| && cs[j].kind.Flag?) == (set i | 0 <= i < |args| && Kind(args[i]).Flag?)
  {
    forall j | 0 <= j < |args|
      ensures ClassifyAll(args)[j].kind == Kind(args[j])
    {
      ClassifyAllAt(args, j);
    }
  }

  /**
   * `prog_args` holds flags only, keeps their order, and keeps every one of
   * them: no flag is dropped and no directive slips in.
   */
  lemma ProgArgsMeaning(args: seq<string>)
    ensures forall i :: 0 <= i < |ProgArgs(args)| ==> Kind(ProgArgs(args)[i]).Flag?
    ensures IsSubsequence(ProgArgs(args), args)
    ensures forall i :: 0 <= i < |args| && Kind(args[i]).Flag? ==> args[i] in ProgArgs(args)
    ensures |ProgArgs(args)| == |set i | 0 <= i < |args| && Kind(args[i]).Flag?|
  {
    var cs := ClassifyAll(args);
    forall j | 0 <= j < |cs|
      ensures cs[j] == Classified(args[j], Kind(args[j]))
    {
      ClassifyAllAt(args, j);
    }
    ProgArgsOfMeaning(cs, args);
    FlagIndices(args);
    forall i | 0 <= i < |ProgArgs(args)|
      ensures Kind(ProgArgs(args)[i]).Flag?
    {
      var j :| 0 <= j < |cs| && cs[j] == Classified(ProgArgs(args)[i], Flag);
    }
  }

  /** Entries that do not set `key` leave its last value alone. */
  lemma {:induction false} LastValueOfSkips(a: seq<Classified>, b: seq<Classified>, key: ClockKey, parse: string -> Option<real>)
    requires forall i :: 0 <= i < |b| ==> !SetsKey(b[i], key)
    ensures LastValueOf(a + b, key, parse) == LastValueOf(a, key, parse)
    decreases |b|
  {
    if b == [] {
      assert a + b == a;
    } else {
      var b', c := b[..|b| - 1], b[|b| - 1];
      assert a + b == (a + b') + [c];
      LastValueOfAppend(a + b', c, key, parse);
      LastValueOfSkips(a, b', key, parse);
    }
  }

  /** A directive for `key` overrides every earlier one and holds until the next one. */
  lemma LaterDirectiveWins(a: seq<string>, d: string, b: seq<string>, key: ClockKey, parse: string -> Option<real>)
    requires Kind(d).Directive? && Kind(d).key == key
    requires forall i :: 0 <= i < |b| ==> !(Kind(b[i]).Directive? && Kind(b[i]).key == key)
    ensures LastValue(a + [d] + b, key, parse) == parse(Kind(d).value)
  {
    ClassifyAllAppend(a + [d], b);
    ClassifyAllAppend(a, [d]);
    var cd := Classified(d, Kind(d));
    assert ClassifyAll([d]) == [cd];
    forall i | 0 <= i < |b|
      ensures !SetsKey(ClassifyAll(b)[i], key)
    {
      ClassifyAllAt(b, i);
    }
    LastValueOfSkips(ClassifyAll(a) + [cd], ClassifyAll(b), key, parse);
    LastValueOfAppend(ClassifyAll(a), cd, key, parse);
  }
}
