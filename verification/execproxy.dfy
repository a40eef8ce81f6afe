/**
 * The setuid wrapper that starts the Python module (execproxy.c): it builds
 * the interpreter's argument vector, and when it runs with an effective user
 * other than the real one it refuses a module not owned by root or by that
 * effective user, scrubs the environment and sets a fixed PATH, then hands
 * over to /usr/bin/python.
 *
 * The environment is an array of "NAME=value" strings; the module path (a
 * compile time constant), the user ids and the owner that stat reports are
 * parameters, and execv is the outcome the wrapper ends in.
 */
module ExecProxy {
  import opened Wrappers
  import opened Text
  import Paths

  /** Entries whose names start so are disabled: their first character becomes X. */
  predicate Dangerous(e: string) {
    IsPrefix("LD_", e) || IsPrefix("_RLD", e) || IsPrefix("PYTHON", e)
  }

  const DefaultIfs: string := "IFS= \t\n"
  const DefaultCdpath: string := "CDPATH=."
  const DefaultEnv: string := "ENV=:"
  const PathValue: string := "/sbin:/bin:/usr/bin:/usr/sbin:/usr/local/bin:/usr/local/sbin"
  const DefaultPath: string := "PATH" + "=" + PathValue

  /**
   * One environment entry after clean_environ: the first rule whose prefix
   * it starts with applies, and an entry no rule matches is left alone.
   */
  function CleanEntry(e: string): string
  {
    if IsPrefix("LD_", e) then ['X'] + e[1..]
    else if IsPrefix("_RLD", e) then ['X'] + e[1..]
    else if IsPrefix("PYTHON", e) then ['X'] + e[1..]
    else if IsPrefix("IFS=", e) then DefaultIfs
    else if IsPrefix("CDPATH=", e) then DefaultCdpath
    else if IsPrefix("ENV=", e) then DefaultEnv
    else e
  }

  /** Every entry cleaned, in place: the count and the order of the entries stay. */
  function CleanAll(env: seq<string>): (r: seq<string>)
    ensures |r| == |env|
    ensures forall i :: 0 <= i < |env| ==> r[i] == CleanEntry(env[i])
  {
    seq(|env|, i requires 0 <= i < |env| => CleanEntry(env[i]))
  }

  /** The cleaning rules, each as the source states it, and nothing else changes. */
  lemma CleanRules(e: string)
    ensures Dangerous(e) ==> CleanEntry(e) == ['X'] + e[1..]
    ensures IsPrefix("IFS=", e) ==> CleanEntry(e) == DefaultIfs
    ensures IsPrefix("CDPATH=", e) ==> CleanEntry(e) == DefaultCdpath
    ensures IsPrefix("ENV=", e) ==> CleanEntry(e) == DefaultEnv
    ensures !Dangerous(e) && !IsPrefix("IFS=", e) && !IsPrefix("CDPATH=", e) && !IsPrefix("ENV=", e) ==>
      CleanEntry(e) == e
  {
    DangerousHead(e);
    PrefixHead("IFS=", e);
    PrefixHead("CDPATH=", e);
    PrefixHead("ENV=", e);
  }

  /** A text starts with the first character of any non-empty prefix of it. */
  lemma PrefixHead(p: string, e: string)
    ensures IsPrefix(p, e) && p != [] ==> e != [] && e[0] == p[0]
  {
    if IsPrefix(p, e) && p != [] {
      assert e[0] == e[..|p|][0];
    }
  }

  /** Only entries starting with L, _ or P can be dangerous. */
  lemma DangerousHead(e: string)
    ensures Dangerous(e) ==> e != [] && (e[0] == 'L' || e[0] == '_' || e[0] == 'P')
  {
    PrefixHead("LD_", e);
    PrefixHead("_RLD", e);
    PrefixHead("PYTHON", e);
  }

  /**
   * A cleaned entry is never dangerous, and one that defines IFS defines it
   * as the default separators.
   */
  lemma CleanSafe(e: string)
    ensures !Dangerous(CleanEntry(e))
    ensures IsPrefix("IFS=", CleanEntry(e)) ==> CleanEntry(e) == DefaultIfs
  {
    var r := CleanEntry(e);
    DangerousHead(r);
    PrefixHead("IFS=", r);
    assert DefaultIfs[0] == 'I' && DefaultCdpath[0] == 'C' && DefaultEnv[0] == 'E';
  }

  /** Cleaning an environment that is already clean changes nothing. */
  lemma CleanIdempotent(e: string)
    ensures CleanEntry(CleanEntry(e)) == CleanEntry(e)
  {
    var r := CleanEntry(e);
    if Dangerous(e) {
      assert r[0] == 'X';
    }
  }

  /** clean_environ's loop over the environment array, before PATH is set. */
  method CleanEntries(env: array<string>)
    modifies env
    ensures env[..] == CleanAll(old(env[..]))
  {
    for i := 0 to env.Length
      invariant forall k :: 0 <= k < i ==> env[k] == CleanEntry(old(env[k]))
      invariant forall k :: i <= k < env.Length ==> env[k] == old(env[k])
    {
      var p := env[i];
      if IsPrefix("LD_", p) {
        env[i] := ['X'] + p[1..];
      } else if IsPrefix("_RLD", p) {
        env[i] := ['X'] + p[1..];
      } else if IsPrefix("PYTHON", p) {
        env[i] := ['X'] + p[1..];
      } else if IsPrefix("IFS=", p) {
        env[i] := DefaultIfs;
      } else if IsPrefix("CDPATH=", p) {
        env[i] := DefaultCdpath;
      } else if IsPrefix("ENV=", p) {
        env[i] := DefaultEnv;
      }
    }
  }

  /** The variable name of an entry: what comes before its first '='. */
  function NameOf(e: string): string {
    Before(e, '=')
  }

  /** The value of the first entry defining name, as getenv finds it. */
  function Getenv(env: seq<string>, name: string): (r: Option<string>)
    ensures r.None? <==> forall i :: 0 <= i < |env| ==> !IsPrefix(name + "=", env[i])
    decreases |env|
  {
    if env == [] then None
    else if IsPrefix(name + "=", env[0]) then Some(env[0][|name| + 1..])
    else
      var r := Getenv(env[1..], name);
      assert forall i :: 1 <= i < |env| ==> env[i] == env[1..][i - 1];
      r
  }

  /** putenv: the entry replaces the first one defining the same name, or is added at the end. */
  function PutEnv(env: seq<string>, entry: string): (r: seq<string>)
    ensures |r| == |env| || |r| == |env| + 1
    decreases |env|
  {
    if env == [] then [entry]
    else if IsPrefix(NameOf(entry) + "=", env[0]) then [entry] + env[1..]
    else [env[0]] + PutEnv(env[1..], entry)
  }

  /** Two names both followed by '=' at the start of one entry are the same name. */
  lemma SameName(a: string, b: string, e: string)
    requires '=' !in a && '=' !in b
    requires IsPrefix(a + "=", e) && IsPrefix(b + "=", e)
    ensures a == b
  {
    assert e[|a|] == '=' && e[|b|] == '=';
    assert a == e[..|a|] && b == e[..|b|];
  }

  /** The name of an entry that starts with a name and '=' is that name. */
  lemma NameOfEntry(name: string, e: string)
    requires '=' !in name && IsPrefix(name + "=", e)
    ensures NameOf(e) == name
  {
    assert e == name + ['='] + e[|name| + 1..];
    BeforeFirst(name, '=', e[|name| + 1..]);
  }

  /** After putenv, the name it sets reads back as its value. */
  lemma {:induction false} GetenvPut(env: seq<string>, name: string, value: string)
    requires '=' !in name
    ensures Getenv(PutEnv(env, name + "=" + value), name) == Some(value)
    decreases |env|
  {
    var entry := name + "=" + value;
    assert entry[..|name| + 1] == name + "=";
    NameOfEntry(name, entry);
    assert entry[|name| + 1..] == value;
    if env != [] && !IsPrefix(name + "=", env[0]) {
      GetenvPut(env[1..], name, value);
    }
  }

  /** putenv leaves every other variable as it was. */
  lemma {:induction false} GetenvPutOther(env: seq<string>, name: string, value: string, other: string)
    requires '=' !in name && '=' !in other && other != name
    ensures Getenv(PutEnv(env, name + "=" + value), other) == Getenv(env, other)
    decreases |env|
  {
    var entry := name + "=" + value;
    assert entry[..|name| + 1] == name + "=";
    NameOfEntry(name, entry);
    if IsPrefix(other + "=", entry) {
      SameName(name, other, entry);
    }
    if env != [] {
      if IsPrefix(name + "=", env[0]) {
        if IsPrefix(other + "=", env[0]) {
          SameName(name, other, env[0]);
        }
      } else {
        GetenvPutOther(env[1..], name, value, other);
      }
    }
  }

  /** p, a prefix of q, is a prefix of whatever q is a prefix of. */
  lemma PrefixTrans(p: string, q: string, s: string)
    requires IsPrefix(p, q) && IsPrefix(q, s)
    ensures IsPrefix(p, s)
  {
    assert s[..|p|] == s[..|q|][..|p|];
  }

  /** An entry defining a dangerous name is itself dangerous. */
  lemma DangerousExtends(name: string, e: string)
    ensures Dangerous(name) && IsPrefix(name + "=", e) ==> Dangerous(e)
  {
    if Dangerous(name) && IsPrefix(name + "=", e) {
      assert (name + "=")[..|name|] == name;
      PrefixTrans(name, name + "=", e);
      if IsPrefix("LD_", name) {
        PrefixTrans("LD_", name, e);
      } else if IsPrefix("_RLD", name) {
        PrefixTrans("_RLD", name, e);
      } else {
        PrefixTrans("PYTHON", name, e);
      }
    }
  }

  /** No variable whose name starts like a dangerous one is visible after cleaning. */
  lemma DangerousHidden(env: seq<string>, name: string)
    requires Dangerous(name)
    ensures Getenv(CleanAll(env), name) == None
  {
    var cleaned := CleanAll(env);
    forall i | 0 <= i < |cleaned|
      ensures !IsPrefix(name + "=", cleaned[i])
    {
      CleanSafe(env[i]);
      DangerousExtends(name, cleaned[i]);
    }
  }

  /** An IFS variable that survives cleaning holds the default separators. */
  lemma IfsDefault(env: seq<string>)
    ensures Getenv(CleanAll(env), "IFS") in {None, Some(" \t\n")}
  {
    var cleaned := CleanAll(env);
    var r := Getenv(cleaned, "IFS");
    if r.Some? {
      FirstDefinition(cleaned, "IFS");
      var i :| 0 <= i < |cleaned| && IsPrefix("IFS" + "=", cleaned[i]) && r.value == cleaned[i][4..];
      assert "IFS" + "=" == "IFS=";
      CleanSafe(env[i]);
      assert DefaultIfs[4..] == " \t\n";
    }
  }

  /** The value getenv returns comes from an entry that defines the name. */
  lemma {:induction false} FirstDefinition(env: seq<string>, name: string)
    requires Getenv(env, name).Some?
    ensures exists i :: (0 <= i < |env| && IsPrefix(name + "=", env[i]) &&
      Getenv(env, name).value == env[i][|name| + 1..])
    decreases |env|
  {
    if !IsPrefix(name + "=", env[0]) {
      FirstDefinition(env[1..], name);
      var i :| 0 <= i < |env[1..]| && IsPrefix(name + "=", env[1..][i]) &&
        Getenv(env[1..], name).value == env[1..][i][|name| + 1..];
      assert env[i + 1] == env[1..][i];
    }
  }

  lemma NotPath(name: string)
    requires Dangerous(name)
    ensures name != "PATH"
  {
    if IsPrefix("PYTHON", name) {
      assert name[1] == 'Y';
    } else if IsPrefix("LD_", name) {
      assert name[0] == 'L';
    } else {
      assert name[0] == '_';
    }
  }

  /**
   * The environment the interpreter starts with when the wrapper cleans:
   * PATH is the fixed default and no dangerous variable is visible.
   */
  lemma ScrubbedEnvironment(env: seq<string>, name: string)
    requires Dangerous(name) && '=' !in name
    ensures Getenv(PutEnv(CleanAll(env), DefaultPath), "PATH") == Some(PathValue)
    ensures Getenv(PutEnv(CleanAll(env), DefaultPath), name) == None
  {
    GetenvPut(CleanAll(env), "PATH", PathValue);
    NotPath(name);
    GetenvPutOther(CleanAll(env), "PATH", PathValue, name);
    DangerousHidden(env, name);
  }

  /** basename(3) from libgen: the last component, ignoring trailing separators. */
  function CBasename(p: string): (r: string)
    ensures p != [] ==> r != []
  {
    if p == [] then "."
    else
      var t := TrimRight(p, Paths.IsSlash);
      if t == [] then "/"
      else
        TrimRightKept(p, Paths.IsSlash);
        var b := Paths.Basename(t);
        assert t[|t| - 1] != '/';
        var k := Paths.FindLast(t, '/');
        assert k.Some? ==> k.value < |t| - 1;
        b
  }

  /** A program path's basename is its last component. */
  lemma ProgramName(dir: string, name: string)
    requires name != [] && '/' !in name && dir != [] && dir[|dir| - 1] != '/'
    ensures CBasename(dir + "/" + name) == name
  {
    var p := dir + "/" + name;
    assert p[|p| - 1] == name[|name| - 1];
    assert TrimRight(p, Paths.IsSlash) == p;
    Paths.LastSlash(dir, name);
  }

  /** The interpreter's arguments: the program's basename, -O, -E, the module, then the caller's arguments. */
  function ExecArgs(argv: seq<string>, modulePath: string): (r: seq<string>)
    requires |argv| >= 1
    ensures |r| == |argv| + 3
    ensures r[4..] == argv[1..]
    ensures r[1] == "-O" && r[2] == "-E" && r[3] == modulePath
  {
    [CBasename(argv[0]), "-O", "-E", modulePath] + argv[1..]
  }

  /** argv_copy: the arguments, then the NULL that ends them. */
  function ExecVector(argv: seq<string>, modulePath: string): (r: seq<Option<string>>)
    requires |argv| >= 1
    ensures |r| == |argv| + 4 && r[|argv| + 3] == None
    ensures forall i :: 0 <= i < |argv| + 3 ==> r[i] == Some(ExecArgs(argv, modulePath)[i])
  {
    var args := ExecArgs(argv, modulePath);
    seq(|args|, i requires 0 <= i < |args| => Some(args[i])) + [None]
  }

  /** The caller's arguments reach the module unchanged, after the four the wrapper puts first. */
  lemma ArgumentsPassed(argv: seq<string>, modulePath: string, k: nat)
    requires 1 <= k < |argv|
    ensures ExecVector(argv, modulePath)[k + 3] == Some(argv[k])
  {
    assert ExecArgs(argv, modulePath)[k + 3] == ExecArgs(argv, modulePath)[4..][k - 1];
  }

  /** Building argv_copy: an array of argc + 5 slots, filled by the loop over the caller's arguments. */
  method ArgvCopy(argv: seq<string>, modulePath: string) returns (a: array<Option<string>>)
    requires |argv| >= 1
    ensures fresh(a) && a.Length == |argv| + 5
    ensures a[..|argv| + 4] == ExecVector(argv, modulePath)
  {
    a := new Option<string>[|argv| + 5](_ => None);
    a[0] := Some(CBasename(argv[0]));
    a[1] := Some("-O");
    a[2] := Some("-E");
    a[3] := Some(modulePath);
    ghost var args := ExecArgs(argv, modulePath);
    var i := 1;
    while i < |argv|
      invariant 1 <= i <= |argv|
      invariant forall k :: 0 <= k < i + 3 ==> a[k] == Some(args[k])
    {
      a[i + 3] := Some(argv[i]);
      assert args[i + 3] == args[4..][i - 1];
      i := i + 1;
    }
    a[i + 3] := None;
    assert a[..|argv| + 4] == ExecVector(argv, modulePath);
  }

  /** How the wrapper ends. */
  datatype Outcome = Exit(status: int) | Exec(program: string, args: seq<Option<string>>, environ: seq<string>)

  const Python: string := "/usr/bin/python"

  /** The module may be run for another user only when root or that user owns it (a failed stat is no owner). */
  predicate OwnerTrusted(moduleOwner: Option<nat>, euid: nat) {
    moduleOwner.Some? && (moduleOwner.value == 0 || moduleOwner.value == euid)
  }

  /**
   * main: the argument vector is built first; with differing real and
   * effective users the module's owner is checked and the environment
   * cleaned, and the interpreter is then started.
   */
  method Run(argv: seq<string>, modulePath: string, uid: nat, euid: nat, moduleOwner: Option<nat>,
             env: array<string>) returns (o: Outcome)
    requires |argv| >= 1
    modifies env
    ensures uid == euid ==> env[..] == old(env[..]) && o == Exec(Python, ExecVector(argv, modulePath), env[..])
    ensures uid != euid && !OwnerTrusted(moduleOwner, euid) ==> env[..] == old(env[..]) && o == Exit(1)
    ensures uid != euid && OwnerTrusted(moduleOwner, euid) ==>
      env[..] == CleanAll(old(env[..])) &&
      o == Exec(Python, ExecVector(argv, modulePath), PutEnv(CleanAll(old(env[..])), DefaultPath))
  {
    var argvCopy := ArgvCopy(argv, modulePath);
    var environ := env[..];
    if uid != euid {
      if moduleOwner.None? {
        return Exit(1);
      }
      if moduleOwner.value != 0 && moduleOwner.value != euid {
        return Exit(1);
      }
      CleanEntries(env);
      environ := PutEnv(env[..], DefaultPath);
    }
    o := Exec(Python, argvCopy[..|argv| + 4], environ);
  }
}
