/**
 * The C preprocessor options that fab's plan commands accept (pylib/cpp.py):
 * `getopt` pulls every `-I`, `-D` and `-U` option, bare (`-D name`) or
 * attached (`-Dname`), out of an argument list and returns the options in
 * the order met together with the remaining arguments; `cpp` turns the
 * options back into arguments for the preprocessor.
 */
module Cpp {
  import opened Wrappers
  import opened Text

  /** The options handed to the preprocessor, in the order they are tried. */
  const CppArgs: seq<string> := ["-I", "-D", "-U"]

  /** An option and its value, such as ("-D", "FOO=1"). */
  type Opt = (string, string)

  /** The options found and the arguments left over. */
  type Parsed = (seq<Opt>, seq<string>)

  function NoValue(opt: string): string {
    "no value for option " + opt
  }

  /** The first of `ps` that `arg` starts with. */
  function FirstPrefix(ps: seq<string>, arg: string): (r: Option<string>)
    ensures r.Some? ==> r.value in ps && IsPrefix(r.value, arg)
    ensures r.None? ==> forall p :: p in ps ==> !IsPrefix(p, arg)
    decreases |ps|
  {
    if |ps| == 0 then None
    else if IsPrefix(ps[0], arg) then Some(ps[0])
    else FirstPrefix(ps[1..], arg)
  }

  /** The cpp option that `arg` belongs to, if any. */
  function CppArgOf(arg: string): Option<string> {
    FirstPrefix(CppArgs, arg)
  }

  /** The search over CppArgs for the option an argument starts with. */
  method MatchCppArg(arg: string) returns (r: Option<string>)
    ensures r == CppArgOf(arg)
  {
    r := None;
    var k := 0;
    while k < |CppArgs| && r.None?
      invariant k <= |CppArgs|
      invariant CppArgOf(arg) == if r.Some? then r else FirstPrefix(CppArgs[k..], arg)
    {
      assert CppArgs[k..][1..] == CppArgs[k + 1..];
      if IsPrefix(CppArgs[k], arg) {
        r := Some(CppArgs[k]);
      }
      k := k + 1;
    }
  }

  /** Puts the options and arguments found so far in front of a result. */
  function Combine(opts: seq<Opt>, kept: seq<string>, r: Result<Parsed, string>): Result<Parsed, string> {
    match r
    case Ok(v) => Ok((opts + v.0, kept + v.1))
    case Err(e) => Err(e)
  }

  /**
   * What getopt returns for `argv`: each argument is, left to right, a bare
   * option taking the next argument as its value, an attached option, or an
   * argument kept as it is.
   */
  function SplitCppArgs(argv: seq<string>): (r: Result<Parsed, string>)
    ensures r.Ok? ==> forall o :: o in r.value.0 ==> o.0 in CppArgs
    ensures r.Ok? ==> forall a :: a in r.value.1 ==> CppArgOf(a).None?
    ensures r.Ok? ==> |r.value.0| + |r.value.1| <= |argv|
    ensures r.Err? ==> exists p :: p in CppArgs && r.error == NoValue(p)
    decreases |argv|
  {
    if |argv| == 0 then Ok(([], []))
    else match CppArgOf(argv[0])
      case None => Combine([], [argv[0]], SplitCppArgs(argv[1..]))
      case Some(p) =>
        if argv[0] == p then
          if |argv| < 2 then Err(NoValue(p))
          else Combine([(p, argv[1])], [], SplitCppArgs(argv[2..]))
        else Combine([(p, argv[0][|p|..])], [], SplitCppArgs(argv[1..]))
  }

  lemma CombineCombine(o1: seq<Opt>, k1: seq<string>, o2: seq<Opt>, k2: seq<string>, r: Result<Parsed, string>)
    ensures Combine(o1, k1, Combine(o2, k2, r)) == Combine(o1 + o2, k1 + k2, r)
  {
    match r
    case Err(_) =>
    case Ok(v) =>
      assert o1 + (o2 + v.0) == o1 + o2 + v.0;
      assert k1 + (k2 + v.1) == k1 + k2 + v.1;
  }

  /**
   * getopt: works on its own copy of the arguments, deleting each option (and
   * the value of a bare one) from it as it is found.
   */
  method Getopt(args: seq<string>) returns (r: Result<Parsed, string>)
    ensures r == SplitCppArgs(args)
  {
    var argv := args;
    var opts: seq<Opt> := [];
    var i := 0;
    CombineEmpty(SplitCppArgs(args));
    while i < |argv|
      invariant i <= |argv|
      invariant Combine(opts, argv[..i], SplitCppArgs(argv[i..])) == SplitCppArgs(args)
      decreases |argv| - i
    {
      var arg := argv[i];
      var cppArg := MatchCppArg(arg);
      if cppArg.None? {
        StepKeep(opts, argv, i);
        i := i + 1;
      } else {
        var p := cppArg.value;
        var opt, val;
        var tail;
        if arg == p {
          if i + 1 >= |argv| {
            StepMissing(opts, argv, i, p);
            return Err(NoValue(p));
          }
          opt, val := arg, argv[i + 1];
          tail := argv[i + 2..];
        } else {
          opt, val := arg[..|p|], arg[|p|..];
          tail := argv[i + 1..];
        }
        StepOption(opts, argv, i, p, tail);
        argv := argv[..i] + tail;
        opts := opts + [(opt, val)];
      }
    }
    assert argv[i..] == [] && argv[..i] == argv;
    assert opts + [] == opts && argv + [] == argv;
    r := Ok((opts, argv));
  }

  lemma CombineEmpty(r: Result<Parsed, string>)
    ensures Combine([], [], r) == r
  {
    match r
    case Err(_) =>
    case Ok(v) => assert [] + v.0 == v.0 && [] + v.1 == v.1;
  }

  /** An argument that is no option moves to the kept arguments. */
  lemma StepKeep(opts: seq<Opt>, argv: seq<string>, i: nat)
    requires i < |argv| && CppArgOf(argv[i]).None?
    ensures Combine(opts, argv[..i], SplitCppArgs(argv[i..])) ==
      Combine(opts, argv[..i + 1], SplitCppArgs(argv[i + 1..]))
  {
    assert argv[i..][0] == argv[i] && argv[i..][1..] == argv[i + 1..];
    CombineCombine(opts, argv[..i], [], [argv[i]], SplitCppArgs(argv[i + 1..]));
    assert argv[..i + 1] == argv[..i] + [argv[i]];
    assert opts + [] == opts;
  }

  /** A bare option with nothing after it ends the search with an error. */
  lemma StepMissing(opts: seq<Opt>, argv: seq<string>, i: nat, p: string)
    requires i + 1 == |argv| && CppArgOf(argv[i]) == Some(p) && argv[i] == p
    ensures Combine(opts, argv[..i], SplitCppArgs(argv[i..])) == Err(NoValue(p))
  {
    assert argv[i..] == [p];
  }

  /**
   * An option, bare with the next argument as its value or attached, moves to the options and
   * leaves the arguments after it.
   */
  lemma StepOption(opts: seq<Opt>, argv: seq<string>, i: nat, p: string, tail: seq<string>)
    requires i < |argv| && CppArgOf(argv[i]) == Some(p)
    requires argv[i] == p ==> i + 1 < |argv| && tail == argv[i + 2..]
    requires argv[i] != p ==> tail == argv[i + 1..]
    ensures var o := if argv[i] == p then (p, argv[i + 1]) else (argv[i][..|p|], argv[i][|p|..]);
      var next := argv[..i] + tail;
      Combine(opts, argv[..i], SplitCppArgs(argv[i..])) ==
      Combine(opts + [o], next[..i], SplitCppArgs(next[i..]))
  {
    var o := if argv[i] == p then (p, argv[i + 1]) else (argv[i][..|p|], argv[i][|p|..]);
    var next := argv[..i] + tail;
    assert next[..i] == argv[..i] && next[i..] == tail;
    if argv[i] == p {
      assert argv[i..][0] == p && argv[i..][1] == argv[i + 1] && argv[i..][2..] == tail;
    } else {
      assert argv[i..][0] == argv[i] && argv[i..][1..] == tail;
    }
    assert SplitCppArgs(argv[i..]) == Combine([o], [], SplitCppArgs(tail));
    CombineCombine(opts, argv[..i], [o], [], SplitCppArgs(tail));
    assert argv[..i] + [] == argv[..i];
  }

  /**
   * Arguments are processed left to right, so the options of a concatenation are the options of
   * each part in turn, and so are the kept arguments.
   */
  lemma {:induction false} SplitAppend(x: seq<string>, y: seq<string>)
    requires SplitCppArgs(x).Ok?
    ensures SplitCppArgs(x + y) == Combine(SplitCppArgs(x).value.0, SplitCppArgs(x).value.1, SplitCppArgs(y))
    decreases |x|
  {
    if |x| == 0 {
      assert x + y == y;
      match SplitCppArgs(y)
      case Err(_) =>
      case Ok(v) => assert [] + v.0 == v.0 && [] + v.1 == v.1;
    } else {
      assert (x + y)[0] == x[0];
      match CppArgOf(x[0])
      case None =>
        assert (x + y)[1..] == x[1..] + y;
        SplitAppend(x[1..], y);
        CombineCombine([], [x[0]], SplitCppArgs(x[1..]).value.0, SplitCppArgs(x[1..]).value.1, SplitCppArgs(y));
      case Some(p) =>
        if x[0] == p {
          assert (x + y)[1] == x[1] && (x + y)[2..] == x[2..] + y;
          SplitAppend(x[2..], y);
          CombineCombine([(p, x[1])], [], SplitCppArgs(x[2..]).value.0, SplitCppArgs(x[2..]).value.1, SplitCppArgs(y));
        } else {
          assert (x + y)[1..] == x[1..] + y;
          SplitAppend(x[1..], y);
          CombineCombine([(p, x[0][|p|..])], [], SplitCppArgs(x[1..]).value.0, SplitCppArgs(x[1..]).value.1, SplitCppArgs(y));
        }
    }
  }

  /** A bare option as the last argument has no value: getopt fails with that message. */
  lemma MissingValue(x: seq<string>, p: string)
    requires SplitCppArgs(x).Ok? && p in CppArgs
    ensures SplitCppArgs(x + [p]) == Err(NoValue(p))
  {
    SplitAppend(x, [p]);
    assert CppArgOf(p) == Some(p);
  }

  /** The options written bare, each followed by its value as a separate argument. */
  function Bare(opts: seq<Opt>): (r: seq<string>)
    ensures |r| == 2 * |opts|
  {
    if |opts| == 0 then [] else [opts[0].0, opts[0].1] + Bare(opts[1..])
  }

  /** The options written attached, `-Dvalue`. */
  function Attached(opts: seq<Opt>): (r: seq<string>)
    ensures |r| == |opts|
  {
    if |opts| == 0 then [] else [opts[0].0 + opts[0].1] + Attached(opts[1..])
  }

  /** An argument that starts with a cpp option belongs to that option, and to no other. */
  lemma OptionOf(p: string, v: string)
    requires p in CppArgs
    ensures CppArgOf(p + v) == Some(p)
  {
    assert (p + v)[..2] == p;
  }

  /**
   * Bare options followed by arguments that are not options come back as those options, in
   * order, and those arguments, in order; any value may follow a bare option.
   */
  lemma {:induction false} BareRoundTrip(opts: seq<Opt>, rest: seq<string>)
    requires forall o :: o in opts ==> o.0 in CppArgs
    requires forall a :: a in rest ==> CppArgOf(a).None?
    ensures SplitCppArgs(Bare(opts) + rest) == Ok((opts, rest))
    decreases |opts|
  {
    if |opts| == 0 {
      assert Bare(opts) + rest == rest;
      KeptAsIs(rest);
    } else {
      var o := opts[0];
      assert o in opts;
      assert Bare(opts) + rest == [o.0, o.1] + (Bare(opts[1..]) + rest);
      BareStep(o, Bare(opts[1..]) + rest);
      BareRoundTrip(opts[1..], rest);
      assert [o] + opts[1..] == opts;
      assert [] + rest == rest;
    }
  }

  /** One bare option and its value, in front of any arguments, become the first option found. */
  lemma BareStep(o: Opt, s: seq<string>)
    requires o.0 in CppArgs
    ensures SplitCppArgs([o.0, o.1] + s) == Combine([o], [], SplitCppArgs(s))
  {
    var t := [o.0, o.1] + s;
    assert t[0] == o.0 && t[1] == o.1 && t[2..] == s;
    assert o.0 + "" == o.0;
    OptionOf(o.0, "");
  }

  /** Arguments that are not options are all kept, in order. */
  lemma {:induction false} KeptAsIs(rest: seq<string>)
    requires forall a :: a in rest ==> CppArgOf(a).None?
    ensures SplitCppArgs(rest) == Ok(([], rest))
    decreases |rest|
  {
    if |rest| > 0 {
      assert rest[0] in rest;
      KeptAsIs(rest[1..]);
      assert [rest[0]] + rest[1..] == rest;
    }
  }

  /** Attached options with non-empty values come back as those options, in order. */
  lemma {:induction false} AttachedRoundTrip(opts: seq<Opt>)
    requires forall o :: o in opts ==> o.0 in CppArgs && o.1 != ""
    ensures SplitCppArgs(Attached(opts)) == Ok((opts, []))
    decreases |opts|
  {
    if |opts| > 0 {
      var s := Attached(opts);
      var p, v := opts[0].0, opts[0].1;
      assert opts[0] in opts;
      assert s[0] == p + v && s[1..] == Attached(opts[1..]);
      OptionOf(p, v);
      assert (p + v)[|p|..] == v;
      AttachedRoundTrip(opts[1..]);
      assert [opts[0]] + opts[1..] == opts;
    }
  }

  /**
   * The arguments `cpp` passes to the preprocessor: each option attached to
   * its value, then `-I` with the include path when one is set.
   */
  function CommandArgs(opts: seq<Opt>, includePath: Option<string>): (r: seq<string>)
    ensures |r| >= |opts|
  {
    Attached(opts) + (if includePath.Some? && includePath.value != "" then ["-I" + includePath.value] else [])
  }

  /**
   * The preprocessor receives exactly the options getopt recorded, in order, followed by the
   * include path when one is set.
   */
  lemma CommandArgsRoundTrip(opts: seq<Opt>, includePath: Option<string>)
    requires forall o :: o in opts ==> o.0 in CppArgs && o.1 != ""
    ensures includePath.Some? && includePath.value != "" ==>
      SplitCppArgs(CommandArgs(opts, includePath)) == Ok((opts + [("-I", includePath.value)], []))
    ensures !(includePath.Some? && includePath.value != "") ==>
      SplitCppArgs(CommandArgs(opts, includePath)) == Ok((opts, []))
  {
    AttachedRoundTrip(opts);
    if includePath.Some? && includePath.value != "" {
      var extra := [("-I", includePath.value)];
      forall o | o in extra ensures o.0 in CppArgs && o.1 != "" { }
      AttachedRoundTrip(extra);
      assert Attached(extra) == ["-I" + includePath.value];
      SplitAppend(Attached(opts), Attached(extra));
    } else {
      assert CommandArgs(opts, includePath) == Attached(opts);
    }
  }
}
