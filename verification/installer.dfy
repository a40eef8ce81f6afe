/**
 * fablib's package installer: the revertible placeholder files it puts in
 * the chroot while apt runs (`RevertibleFile`, `RevertibleScript`), the
 * environment apt runs with, the split of the packages into a high-priority
 * batch and a regular one, and how the end of apt's `term.log` is read to
 * decide whether a failed run is fatal.
 */
module Installer {
  import opened Wrappers
  import opened Text
  import opened Paths

  // ---------------------------------------------------------------------
  // RevertibleFile._get_orig_path
  // ---------------------------------------------------------------------

  /** The backup name `<path>.orig.<i>`. */
  function OrigPath(path: string, i: nat): (r: string)
    ensures IsPrefix(path + ".orig.", r) && |r| > |path| + 6
  {
    path + ".orig." + Decimal(i)
  }

  /** The number i of a backup name `<path>.orig.<i>`, or -1 for any other name. */
  ghost function OrigNumber(path: string, s: string): int
  {
    var n := |path| + 6;
    if |s| > n && s[..n] == path + ".orig." && forall i :: n <= i < |s| ==> IsDigit(s[i]) then
      var digits := s[n..];
      assert forall i :: 0 <= i < |digits| ==> IsDigit(digits[i]) by {
        forall i | 0 <= i < |digits| ensures IsDigit(digits[i]) {
          assert digits[i] == s[n + i];
        }
      }
      DecimalValue(digits)
    else -1
  }

  /** Each backup name carries its own number, so different numbers give different names. */
  lemma OrigNumberOf(path: string, i: nat)
    ensures OrigNumber(path, OrigPath(path, i)) == i
  {
    var s := OrigPath(path, i);
    var n := |path| + 6;
    assert s[..n] == path + ".orig.";
    assert s[n..] == Decimal(i);
    DecimalRoundTrip(i);
  }

  /**
   * `_get_orig_path`: the first `<path>.orig.<i>`, counting i from 1, that
   * does not exist. The loop ends because every name it passes over exists
   * and is a different name.
   */
  method GetOrigPath(path: string, existing: set<string>) returns (r: string, ghost i: nat)
    ensures i >= 1 && r == OrigPath(path, i) && r !in existing
    ensures forall j :: 1 <= j < i ==> OrigPath(path, j) in existing
  {
    var k: nat := 1;
    ghost var seen: set<string> := {};
    while true
      invariant k >= 1 && seen <= existing
      invariant forall j :: 1 <= j < k ==> OrigPath(path, j) in existing
      invariant forall s :: s in seen ==> 1 <= OrigNumber(path, s) < k
      decreases |existing - seen|
    {
      var candidate := OrigPath(path, k);
      if candidate !in existing {
        return candidate, k;
      }
      OrigNumberOf(path, k);
      assert candidate !in seen;
      assert existing - (seen + {candidate}) < existing - seen;
      seen := seen + {candidate};
      assert forall j :: 1 <= j < k + 1 ==> OrigPath(path, j) in existing by {
        forall j | 1 <= j < k + 1 ensures OrigPath(path, j) in existing {
          if j == k {
            assert OrigPath(path, j) == candidate;
          }
        }
      }
      k := k + 1;
    }
  }

  // ---------------------------------------------------------------------
  // RevertibleFile and RevertibleScript
  // ---------------------------------------------------------------------

  /** The files of the chroot, by path, with their contents. */
  class Disk {
    var files: map<string, string>

    constructor(files: map<string, string>)
      ensures this.files == files
    {
      this.files := files;
    }
  }

  /**
   * The files after a RevertibleFile is opened on p: an existing p moved
   * aside to the backup name, and p itself created empty.
   */
  function Opened(files: map<string, string>, p: string, orig: Option<string>): (r: map<string, string>)
    requires orig.Some? ==> p in files && orig.value !in files
    ensures r.Keys == files.Keys + {p} + (if orig.Some? then {orig.value} else {})
    ensures r[p] == ""
    ensures orig.Some? ==> r[orig.value] == files[p]
    ensures forall q :: q in files && q != p ==> r[q] == files[q]
  {
    var moved := if orig.Some? then (files - {p})[orig.value := files[p]] else files;
    moved[p := ""]
  }

  /** The files after text is written to the file a RevertibleFile holds open. */
  function Written(files: map<string, string>, path: Option<string>, text: string): (r: map<string, string>)
    ensures r.Keys == files.Keys
    ensures path.Some? && path.value in files ==> r[path.value] == files[path.value] + text
    ensures forall q :: q in files && (path.None? || q != path.value) ==> r[q] == files[q]
  {
    if path.Some? && path.value in files then files[path.value := files[path.value] + text] else files
  }

  /**
   * The files after `revert`: the backup moved back over p when there is
   * one, else p removed; either move fails with `FileNotFoundError` when
   * its source is gone. With nothing left to revert the files stay as they are.
   */
  function Reverted(files: map<string, string>, path: Option<string>, orig: Option<string>): (r: Result<map<string, string>, string>)
    requires orig.Some? ==> path.Some?
    ensures path.None? ==> r == Ok(files)
    ensures r.Ok? && orig.Some? ==> r.value.Keys == files.Keys - {orig.value} + {path.value}
    ensures r.Ok? && orig.None? && path.Some? ==> r.value.Keys == files.Keys - {path.value}
    ensures r.Err? <==> (orig.Some? && orig.value !in files) || (orig.None? && path.Some? && path.value !in files)
  {
    if orig.Some? then
      if orig.value in files then Ok((files - {orig.value})[path.value := files[orig.value]])
      else Err(orig.value)
    else if path.Some? then
      if path.value in files then Ok(files - {path.value}) else Err(path.value)
    else Ok(files)
  }

  /**
   * Opening a RevertibleFile, writing anything to it and reverting it gives
   * back exactly the files there were before it was opened.
   */
  lemma RevertRestores(files: map<string, string>, p: string, orig: Option<string>, text: string)
    requires orig.Some? <==> p in files
    requires orig.Some? ==> orig.value !in files
    ensures Reverted(Written(Opened(files, p, orig), Some(p), text), Some(p), orig) == Ok(files)
  {
    var w := Written(Opened(files, p, orig), Some(p), text);
    var r := Reverted(w, Some(p), orig);
    if orig.Some? {
      assert r.value == files;
    } else {
      assert r.value == files;
    }
  }

  /**
   * A file that the installer replaces while apt runs, and restores
   * afterwards: `path` is the replaced path until it is reverted, and
   * `origPath` the name its previous contents were moved to, if it existed.
   */
  class RevertibleFile {
    var path: Option<string>
    var origPath: Option<string>

    /** A backup is only ever held for a path. */
    predicate Valid()
      reads this
    {
      origPath.Some? ==> path.Some?
    }

    /** `RevertibleFile(p)`: moves an existing p to its first free backup name and opens p empty. */
    constructor(p: string, disk: Disk)
      modifies disk
      ensures Valid() && path == Some(p)
      ensures origPath.Some? <==> p in old(disk.files)
      ensures origPath.Some? ==> origPath.value !in old(disk.files) && OrigNumber(p, origPath.value) >= 1
      ensures disk.files == Opened(old(disk.files), p, origPath)
    {
      var orig := Open(p, disk);
      path := Some(p);
      origPath := orig;
    }

    /**
     * `RevertibleScript(p, lines)`: a RevertibleFile on p holding the lines
     * joined by newlines.
     */
    constructor Script(p: string, lines: seq<string>, disk: Disk)
      modifies disk
      ensures Valid() && path == Some(p)
      ensures origPath.Some? <==> p in old(disk.files)
      ensures origPath.Some? ==> origPath.value !in old(disk.files) && OrigNumber(p, origPath.value) >= 1
      ensures disk.files == Written(Opened(old(disk.files), p, origPath), Some(p), Join(lines, "\n"))
      ensures disk.files[p] == Join(lines, "\n")
    {
      var orig := Open(p, disk);
      disk.files := Written(disk.files, Some(p), Join(lines, "\n"));
      path := Some(p);
      origPath := orig;
    }

    /** The opening both constructors share. */
    static method Open(p: string, disk: Disk) returns (orig: Option<string>)
      modifies disk
      ensures orig.Some? <==> p in old(disk.files)
      ensures orig.Some? ==> orig.value !in old(disk.files) && OrigNumber(p, orig.value) >= 1
      ensures disk.files == Opened(old(disk.files), p, orig)
    {
      orig := None;
      if p in disk.files {
        var o, i := GetOrigPath(p, disk.files.Keys);
        OrigNumberOf(p, i);
        disk.files := (disk.files - {p})[o := disk.files[p]];
        orig := Some(o);
      }
      disk.files := disk.files[p := ""];
    }

    /** `write(text)`: appends to the open file, which is p until the file is reverted. */
    method Write(text: string, disk: Disk)
      modifies disk
      ensures disk.files == Written(old(disk.files), path, text)
    {
      disk.files := Written(disk.files, path, text);
    }

    /**
     * `revert()`: puts the backup back, or removes the file when there was
     * none, and forgets both names; once reverted, reverting again changes nothing.
     */
    method Revert(disk: Disk) returns (r: Result<(), string>)
      requires Valid()
      modifies this, disk
      ensures Valid()
      ensures r.Ok? <==> Reverted(old(disk.files), old(path), old(origPath)).Ok?
      ensures r.Ok? ==> disk.files == Reverted(old(disk.files), old(path), old(origPath)).value
      ensures r.Ok? ==> path.None? && origPath.None?
      ensures r.Err? ==> unchanged(this) && unchanged(disk)
    {
      match origPath {
        case Some(o) =>
          if o !in disk.files {
            return Err(o);
          }
          disk.files := (disk.files - {o})[path.value := disk.files[o]];
          origPath := None;
          path := None;
        case None =>
          if path.Some? {
            if path.value !in disk.files {
              return Err(path.value);
            }
            disk.files := disk.files - {path.value};
            path := None;
          }
      }
      r := Ok(());
    }
  }

  // ---------------------------------------------------------------------
  // Installer.__init__ and _get_packages_priority
  // ---------------------------------------------------------------------

  /**
   * The environment apt runs with: the caller's entries, over the defaults
   * `DEBIAN_FRONTEND=noninteractive` and `DEBIAN_PRIORITY=critical`.
   */
  function Environment(environ: Option<map<string, string>>): (env: map<string, string>)
    ensures var given := if environ.Some? then environ.value else map[];
      && env.Keys == given.Keys + {"DEBIAN_FRONTEND", "DEBIAN_PRIORITY"}
      && (forall k :: k in given ==> env[k] == given[k])
      && ("DEBIAN_FRONTEND" !in given ==> env["DEBIAN_FRONTEND"] == "noninteractive")
      && ("DEBIAN_PRIORITY" !in given ==> env["DEBIAN_PRIORITY"] == "critical")
  {
    var given := if environ.Some? then environ.value else map[];
    map["DEBIAN_FRONTEND" := "noninteractive", "DEBIAN_PRIORITY" := "critical"] + given
  }

  /** Packages installed before all others. */
  predicate IsHighPriority(package: string) {
    IsPrefix("linux-image", package)
  }

  /** The high-priority packages, in the order given. */
  function High(packages: seq<string>): (r: seq<string>)
    ensures forall i :: 0 <= i < |r| ==> IsHighPriority(r[i])
    decreases |packages|
  {
    if packages == [] then []
    else
      var last := packages[|packages| - 1];
      High(packages[..|packages| - 1]) + (if IsHighPriority(last) then [last] else [])
  }

  /** The other packages, in the order given. */
  function Regular(packages: seq<string>): (r: seq<string>)
    ensures forall i :: 0 <= i < |r| ==> !IsHighPriority(r[i])
    decreases |packages|
  {
    if packages == [] then []
    else
      var last := packages[|packages| - 1];
      Regular(packages[..|packages| - 1]) + (if IsHighPriority(last) then [] else [last])
  }

  /** `_get_packages_priority`: one pass that sends each package to one of the two lists. */
  method GetPackagesPriority(packages: seq<string>) returns (high: seq<string>, regular: seq<string>)
    ensures high == High(packages) && regular == Regular(packages)
  {
    high, regular := [], [];
    for i := 0 to |packages|
      invariant high == High(packages[..i]) && regular == Regular(packages[..i])
    {
      assert packages[..i + 1][..i] == packages[..i];
      if IsPrefix("linux-image", packages[i]) {
        high := high + [packages[i]];
      } else {
        regular := regular + [packages[i]];
      }
    }
    assert packages[..|packages|] == packages;
  }

  /**
   * Every package lands in exactly one of the two lists: together they hold
   * the packages given, each as often as it was given.
   */
  lemma {:induction false} PriorityPartition(packages: seq<string>)
    ensures multiset(High(packages)) + multiset(Regular(packages)) == multiset(packages)
    decreases |packages|
  {
    if packages != [] {
      var init := packages[..|packages| - 1];
      PriorityPartition(init);
      assert packages == init + [packages[|packages| - 1]];
    }
  }

  /**
   * The split keeps the order: splitting a concatenation splits each part
   * and concatenates the results.
   */
  lemma {:induction false} HighOrder(xs: seq<string>, ys: seq<string>)
    ensures High(xs + ys) == High(xs) + High(ys)
    decreases |ys|
  {
    if ys == [] {
      assert xs + ys == xs;
    } else {
      var init := ys[..|ys| - 1];
      HighOrder(xs, init);
      assert (xs + ys)[..|xs + ys| - 1] == xs + init;
    }
  }

  lemma {:induction false} RegularOrder(xs: seq<string>, ys: seq<string>)
    ensures Regular(xs + ys) == Regular(xs) + Regular(ys)
    decreases |ys|
  {
    if ys == [] {
      assert xs + ys == xs;
    } else {
      var init := ys[..|ys| - 1];
      RegularOrder(xs, init);
      assert (xs + ys)[..|xs + ys| - 1] == xs + init;
    }
  }

  /** A single package goes to the high-priority list exactly when it starts with `linux-image`. */
  lemma PrioritySingle(package: string)
    ensures High([package]) == (if IsHighPriority(package) then [package] else [])
    ensures Regular([package]) == (if IsHighPriority(package) then [] else [package])
  {
    assert [package][..0] == [];
  }
  // ---------------------------------------------------------------------
  // Reading apt's term.log: get_last_log and get_errors
  // ---------------------------------------------------------------------

  const LogStarted: string := "Log started: "
  const LogEnded: string := "Log ended: "
  const ErrorHeader: string := "Errors were encountered while processing:"

  predicate IsStart(line: string) {
    IsPrefix(LogStarted, line)
  }

  predicate IsEnd(line: string) {
    IsPrefix(LogEnded, line)
  }

  /** No line starts a session. */
  predicate NoStart(lines: seq<string>) {
    forall i :: 0 <= i < |lines| ==> !IsStart(lines[i])
  }

  /** A line that starts a session does not also end one. */
  lemma StartIsNotEnd(line: string)
    requires IsStart(line)
    ensures !IsEnd(line)
  {
    assert line[4] == LogStarted[4];
  }

  /** xs in reverse order. */
  function Reverse<T>(xs: seq<T>): (r: seq<T>)
    ensures |r| == |xs| && forall i :: 0 <= i < |xs| ==> r[i] == xs[|xs| - 1 - i]
    decreases |xs|
  {
    if xs == [] then [] else [xs[|xs| - 1]] + Reverse(xs[..|xs| - 1])
  }

  lemma ReverseAppend<T>(xs: seq<T>, ys: seq<T>)
    ensures Reverse(xs + ys) == Reverse(ys) + Reverse(xs)
  {
  }

  lemma ReverseReverse<T>(xs: seq<T>)
    ensures Reverse(Reverse(xs)) == xs
  {
  }

  /** The lines of a log as `get_last_log` keeps them: stripped, without the `Log ended: ` lines. */
  function Kept(lines: seq<string>): (r: seq<string>)
    ensures |r| <= |lines|
    decreases |lines|
  {
    if lines == [] then []
    else (if IsEnd(lines[0]) then [] else [Strip(lines[0], Unicode)]) + Kept(lines[1..])
  }

  lemma {:induction false} KeptAppend(xs: seq<string>, ys: seq<string>)
    ensures Kept(xs + ys) == Kept(xs) + Kept(ys)
    decreases |xs|
  {
    if xs == [] {
      assert xs + ys == ys;
    } else {
      assert (xs + ys)[1..] == xs[1..] + ys;
      KeptAppend(xs[1..], ys);
    }
  }

  /** Keeping the lines of a reversed log gives the kept lines reversed. */
  lemma {:induction false} KeptReverse(xs: seq<string>)
    ensures Kept(Reverse(xs)) == Reverse(Kept(xs))
    decreases |xs|
  {
    if xs != [] {
      var init, last := xs[..|xs| - 1], xs[|xs| - 1];
      KeptReverse(init);
      assert Reverse(xs) == [last] + Reverse(init);
      assert ([last] + Reverse(init))[1..] == Reverse(init);
      assert xs == init + [last];
      KeptAppend(init, [last]);
      assert [last][1..] == [];
      ReverseAppend(Kept(init), Kept([last]));
    }
  }

  /**
   * The loop of `get_last_log`: the lines, from the first one on, kept up to
   * the first `Log started: ` line.
   */
  function Session(lines: seq<string>): (r: seq<string>)
    decreases |lines|
  {
    if lines == [] then []
    else if IsEnd(lines[0]) then Session(lines[1..])
    else if IsStart(lines[0]) then []
    else [Strip(lines[0], Unicode)] + Session(lines[1..])
  }

  /** Read up to a session start, the loop has kept every line before it, and nothing after. */
  lemma {:induction false} SessionUntil(xs: seq<string>, start: string, ys: seq<string>)
    requires NoStart(xs) && IsStart(start)
    ensures Session(xs + [start] + ys) == Kept(xs)
    decreases |xs|
  {
    if xs == [] {
      StartIsNotEnd(start);
      assert xs + [start] + ys == [start] + ys;
    } else {
      assert (xs + [start] + ys)[1..] == xs[1..] + [start] + ys;
      SessionUntil(xs[1..], start, ys);
    }
  }

  /** Without a session start the loop keeps every line. */
  lemma {:induction false} SessionAll(xs: seq<string>)
    requires NoStart(xs)
    ensures Session(xs) == Kept(xs)
    decreases |xs|
  {
    if xs != [] {
      SessionAll(xs[1..]);
    }
  }

  /** The reading loop of `get_last_log`. */
  method ReadSession(lines: seq<string>) returns (log: seq<string>)
    ensures log == Session(lines)
  {
    log := [];
    var i := 0;
    while i < |lines|
      invariant i <= |lines|
      invariant log + Session(lines[i..]) == Session(lines)
    {
      var line := lines[i];
      assert lines[i..][1..] == lines[i + 1..];
      if IsPrefix(LogEnded, line) {
        i := i + 1;
        continue;
      }
      if IsPrefix(LogStarted, line) {
        assert log + [] == log;
        return;
      }
      log := log + [Strip(line, Unicode)];
      i := i + 1;
    }
    assert log + [] == log;
  }

  /** What `get_last_log` as written returns for the lines of term.log. */
  function LastLogAsWrittenOf(lines: seq<string>): seq<string>
  {
    Reverse(Session(lines))
  }

  /** `get_last_log` as written: the file read from its first line, then the list reversed. */
  method GetLastLogAsWritten(lines: seq<string>) returns (log: seq<string>)
    ensures log == LastLogAsWrittenOf(lines)
  {
    var session := ReadSession(lines);
    log := Reverse(session);
  }

  /**
   * The code as written reads the log from its first line: it returns the
   * lines before the first session start, that is the lines before the
   * oldest session, in reverse order.
   */
  lemma AsWrittenReadsFirstLines(before: seq<string>, start: string, after: seq<string>)
    requires NoStart(before) && IsStart(start)
    ensures LastLogAsWrittenOf(before + [start] + after) == Reverse(Kept(before))
  {
    SessionUntil(before, start, after);
  }

  /** What `get_last_log` returns, reading term.log from its last line back. */
  function LastLogOf(lines: seq<string>): seq<string>
  {
    Reverse(Session(Reverse(lines)))
  }

  /**
   * `get_last_log`, reading the lines from the last one back: the lines of
   * the last session, in the order they were written.
   */
  method GetLastLog(lines: seq<string>) returns (log: seq<string>)
    ensures log == LastLogOf(lines)
  {
    var session := ReadSession(Reverse(lines));
    log := Reverse(session);
  }

  /**
   * The log read is the last session: the kept lines after the last
   * `Log started: `, in order, whatever came before it.
   */
  lemma LastSession(before: seq<string>, start: string, after: seq<string>)
    requires NoStart(after) && IsStart(start)
    ensures LastLogOf(before + [start] + after) == Kept(after)
  {
    var lines := before + [start] + after;
    ReverseAppend(before + [start], after);
    ReverseAppend(before, [start]);
    assert Reverse([start]) == [start];
    NoStartReversed(after);
    assert Reverse(lines) == Reverse(after) + [start] + Reverse(before);
    SessionUntil(Reverse(after), start, Reverse(before));
    KeptReverse(after);
    ReverseReverse(Kept(after));
  }

  /** A log that was never started is read whole. */
  lemma NoSession(lines: seq<string>)
    requires NoStart(lines)
    ensures LastLogOf(lines) == Kept(lines)
  {
    NoStartReversed(lines);
    SessionAll(Reverse(lines));
    KeptReverse(lines);
    ReverseReverse(Kept(lines));
  }

  lemma NoStartReversed(xs: seq<string>)
    requires NoStart(xs)
    ensures NoStart(Reverse(xs))
  {
    var r := Reverse(xs);
    forall i | 0 <= i < |r| ensures !IsStart(r[i]) {
      assert r[i] == xs[|xs| - 1 - i];
    }
  }

  /** The package a line of the error list names: its last path component, up to the first `_`. */
  function PackageOf(line: string): (name: string)
    ensures '_' !in name && '/' !in name && IsPrefix(name, Basename(line))
  {
    var base := Basename(line);
    var name := Split(base, '_')[0];
    assert forall i :: 0 <= i < |name| ==> name[i] == base[i];
    name
  }

  /**
   * What `get_errors` collects: the names of the lines after the last
   * header, the last line first (`get_errors` names each line by PackageOf).
   */
  function ErrorsOf(log: seq<string>, header: string, name: string -> string): (errors: seq<string>)
    ensures |errors| <= |log|
    decreases |log|
  {
    if log == [] || log[|log| - 1] == header then []
    else [name(log[|log| - 1])] + ErrorsOf(log[..|log| - 1], header, name)
  }

  /**
   * `get_errors`: walks the log back from its end until the header, naming
   * each line it passes by `name` (PackageOf, when called from `_install`).
   */
  method GetErrors(log: seq<string>, header: string, name: string -> string) returns (errors: seq<string>)
    ensures errors == ErrorsOf(log, header, name)
  {
    errors := [];
    var i := |log|;
    assert log[..i] == log;
    while i > 0
      invariant 0 <= i <= |log|
      invariant errors + ErrorsOf(log[..i], header, name) == ErrorsOf(log, header, name)
    {
      var line := log[i - 1];
      if line == header {
        ErrorsAtHeader(log, i, header, errors, name);
        return;
      }
      ErrorsStep(log, i, header, errors, name);
      errors := errors + [name(line)];
      i := i - 1;
    }
    ErrorsAtHeader(log, 0, header, errors, name);
  }

  lemma ErrorsAtHeader(log: seq<string>, i: nat, header: string, errors: seq<string>, name: string -> string)
    requires i <= |log| && (i == 0 || log[i - 1] == header)
    ensures errors + ErrorsOf(log[..i], header, name) == errors
  {
  }

  lemma ErrorsStep(log: seq<string>, i: nat, header: string, errors: seq<string>, name: string -> string)
    requires 0 < i <= |log| && log[i - 1] != header
    ensures errors + ErrorsOf(log[..i], header, name) == (errors + [name(log[i - 1])]) + ErrorsOf(log[..i - 1], header, name)
  {
    assert log[..i][..i - 1] == log[..i - 1];
    ConsAssoc(errors, name(log[i - 1]), ErrorsOf(log[..i - 1], header, name));
  }

  lemma ConsAssoc<T>(a: seq<T>, b: T, c: seq<T>)
    ensures a + ([b] + c) == (a + [b]) + c
  {
  }

  /**
   * The errors are the names of the lines after the last header: one per
   * line, the last line first.
   */
  lemma {:induction false} ErrorsAfterHeader(before: seq<string>, header: string, after: seq<string>, name: string -> string)
    requires header !in after
    ensures var errors := ErrorsOf(before + [header] + after, header, name);
      |errors| == |after| && forall j :: 0 <= j < |after| ==> errors[j] == name(after[|after| - 1 - j])
    decreases |after|
  {
    if after == [] {
      assert before + [header] + after == (before + [header]) + [];
      ErrorsAtHeader(before + [header], |before| + 1, header, [], name);
      assert (before + [header])[..|before| + 1] == before + [header];
    } else {
      var init, last := after[..|after| - 1], after[|after| - 1];
      ErrorsAfterHeader(before, header, init, name);
      var rest := ErrorsOf(before + [header] + init, header, name);
      assert before + [header] + after == (before + [header] + init) + [last];
      ErrorsCons(before + [header] + init, last, header, name);
      var errors := [name(last)] + rest;
      forall j | 0 <= j < |after| ensures errors[j] == name(after[|after| - 1 - j]) {
        if j > 0 {
          var k := |after| - 1 - j;
          assert k == |init| - 1 - (j - 1) && k < |init|;
          assert errors[j] == rest[j - 1] == name(init[k]);
          assert init[k] == after[k];
        }
      }
    }
  }

  /** A line other than the header adds its name in front of the errors before it. */
  lemma ErrorsCons(log: seq<string>, line: string, header: string, name: string -> string)
    requires line != header
    ensures ErrorsOf(log + [line], header, name) == [name(line)] + ErrorsOf(log, header, name)
  {
    assert (log + [line])[..|log|] == log;
  }

  // ---------------------------------------------------------------------
  // Error filtering and the install loop of _install
  // ---------------------------------------------------------------------

  /** The set of packages the log reports errors for. */
  function ErrorSet(log: seq<string>, name: string -> string): (s: set<string>)
    ensures forall e :: e in s <==> e in ErrorsOf(log, ErrorHeader, name)
  {
    set e | e in ErrorsOf(log, ErrorHeader, name)
  }

  /**
   * What one apt run leads to: go on, warning about the ignored errors;
   * fail because apt could not locate a package (exit code 100 and no error
   * list); or fail with the errors that are not ignored.
   */
  datatype Verdict = Proceed(ignored: set<string>) | Unlocated | Failed(errors: set<string>)

  /** How `_install` judges an apt run from its exit code and the last log. */
  function CheckRun(code: int, log: seq<string>, ignore: set<string>, name: string -> string): (v: Verdict)
    ensures v.Failed? ==> v.errors != {} && v.errors !! ignore && v.errors <= ErrorSet(log, name)
    ensures v.Proceed? ==> v.ignored <= ignore && v.ignored <= ErrorSet(log, name)
    ensures v.Unlocated? ==> code == 100
  {
    if code == 0 then Proceed({})
    else if ErrorHeader !in log then
      if code == 100 then Unlocated else Proceed({})
    else
      var errors := ErrorSet(log, name);
      if errors - ignore != {} then Failed(errors - ignore) else Proceed(errors * ignore)
  }

  /**
   * A failed run is fatal exactly when the log lists an error that is not
   * ignored, or, without an error list, when the exit code is 100; the
   * ignored errors it lists are only warned about.
   */
  lemma CheckRunRaises(code: int, log: seq<string>, ignore: set<string>, name: string -> string)
    requires code != 0
    ensures CheckRun(code, log, ignore, name).Proceed? <==>
      if ErrorHeader in log then ErrorSet(log, name) <= ignore else code != 100
    ensures ErrorHeader in log && ErrorSet(log, name) <= ignore ==>
      CheckRun(code, log, ignore, name) == Proceed(ErrorSet(log, name))
  {
    var errors := ErrorSet(log, name);
    if errors - ignore == {} {
      forall e | e in errors ensures e in ignore {
        assert e !in errors - ignore;
      }
    } else {
      var e :| e in errors - ignore;
    }
    if ErrorHeader in log && errors <= ignore {
      assert errors * ignore == errors;
    }
  }
  /** What apt-get leaves for one run: its exit code, and the lines of term.log after it. */
  datatype AptRun = AptRun(code: int, termLog: seq<string>)

  /** Why `_install` raises. */
  datatype InstallError = PackagesNotLocated | PackageErrors(errors: set<string>)

  /**
   * Where the install loop stands: the batches handed to apt so far, the
   * errors it warned about, and the error it raised, if any.
   */
  datatype Progress = Progress(ran: seq<seq<string>>, warned: set<string>, failure: Option<InstallError>)

  /** The arguments of the apt-get call for one batch. */
  function AptArgs(extra: seq<string>, batch: seq<string>): (args: seq<string>)
    ensures |args| == 4 + |extra| + |batch|
    ensures args[..4] == ["-o", "Debug::pkgProblemResolver=true", "install", "--assume-yes"]
    ensures args[4..4 + |extra|] == extra && args[4 + |extra|..] == batch
  {
    ["-o", "Debug::pkgProblemResolver=true", "install", "--assume-yes"] + extra + batch
  }

  /**
   * How `_install` judges the run apt makes of one batch: on its exit code
   * and the session of term.log that read picks out (LastLogAsWrittenOf
   * for `get_last_log` as written, LastLogOf corrected), naming error lines
   * by PackageOf.
   */
  function Judge(batch: seq<string>, ignore: set<string>, extra: seq<string>, apt: seq<string> -> AptRun, read: seq<string> -> seq<string>): Verdict
  {
    var run := apt(AptArgs(extra, batch));
    CheckRun(run.code, read(run.termLog), ignore, PackageOf)
  }

  /** One round of the install loop: a batch, and the verdict on its run. */
  function InstallStep(p: Progress, batch: seq<string>, v: Verdict): Progress
  {
    if batch == [] then p
    else match v
      case Proceed(ignored) => Progress(p.ran + [batch], p.warned + ignored, None)
      case Unlocated => Progress(p.ran + [batch], p.warned, Some(PackagesNotLocated))
      case Failed(errors) => Progress(p.ran + [batch], p.warned, Some(PackageErrors(errors)))
  }

  /** The install loop over the batches, each run judged by judge, stopping at the first error raised. */
  function InstallOf(batches: seq<seq<string>>, judge: seq<string> -> Verdict): Progress
    decreases |batches|
  {
    if batches == [] then Progress([], {}, None)
    else
      var prev := InstallOf(batches[..|batches| - 1], judge);
      if prev.failure.Some? then prev
      else
        var last := batches[|batches| - 1];
        InstallStep(prev, last, judge(last))
  }

  /** The non-empty batches, in order. */
  function NonEmpty(batches: seq<seq<string>>): (r: seq<seq<string>>)
    ensures forall j :: 0 <= j < |r| ==> r[j] != []
    decreases |batches|
  {
    if batches == [] then []
    else
      var last := batches[|batches| - 1];
      NonEmpty(batches[..|batches| - 1]) + (if last == [] then [] else [last])
  }

  /**
   * The install loop has run the non-empty batches in order, up to the one
   * whose run raised, if any: every run before it was judged fine.
   */
  predicate RanInOrder(p: Progress, batches: seq<seq<string>>, judge: seq<string> -> Verdict) {
    var todo := NonEmpty(batches);
    && |p.ran| <= |todo| && p.ran == todo[..|p.ran|]
    && (p.failure.None? ==> p.ran == todo)
    && (p.failure.Some? <==> p.ran != [] && !judge(p.ran[|p.ran| - 1]).Proceed?)
    && (forall j :: 0 <= j < |p.ran| - 1 ==> judge(p.ran[j]).Proceed?)
  }

  lemma {:induction false} InstallRuns(batches: seq<seq<string>>, judge: seq<string> -> Verdict)
    ensures RanInOrder(InstallOf(batches, judge), batches, judge)
    decreases |batches|
  {
    if batches != [] {
      var init, last := batches[..|batches| - 1], batches[|batches| - 1];
      InstallRuns(init, judge);
      assert batches == init + [last];
      RunsExtend(init, last, judge);
    }
  }

  /** One more batch keeps the loop's runs in order. */
  lemma RunsExtend(init: seq<seq<string>>, last: seq<string>, judge: seq<string> -> Verdict)
    requires RanInOrder(InstallOf(init, judge), init, judge)
    ensures RanInOrder(InstallOf(init + [last], judge), init + [last], judge)
  {
    var batches := init + [last];
    assert batches[..|batches| - 1] == init;
    var prev := InstallOf(init, judge);
    var before := NonEmpty(init);
    var todo := NonEmpty(batches);
    assert todo == before + (if last == [] then [] else [last]);
    assert todo[..|before|] == before;
    if prev.failure.Some? {
      assert prev.ran == todo[..|prev.ran|];
    } else if last != [] {
      RunsStep(prev, last, judge(last), judge);
    }
  }

  lemma RunsStep(prev: Progress, last: seq<string>, v: Verdict, judge: seq<string> -> Verdict)
    requires last != [] && prev.failure.None? && v == judge(last)
    requires forall j :: 0 <= j < |prev.ran| ==> judge(prev.ran[j]).Proceed?
    ensures var p := InstallStep(prev, last, v);
      && p.ran == prev.ran + [last]
      && (p.failure.Some? <==> !judge(last).Proceed?)
      && (forall j :: 0 <= j < |p.ran| - 1 ==> judge(p.ran[j]).Proceed?)
  {
    var p := InstallStep(prev, last, v);
    forall j | 0 <= j < |p.ran| - 1 ensures judge(p.ran[j]).Proceed? {
      assert p.ran[j] == prev.ran[j];
    }
  }

  /** Once the loop has raised, later batches change nothing. */
  lemma {:induction false} InstallStopped(batches: seq<seq<string>>, k: nat, judge: seq<string> -> Verdict)
    requires k <= |batches| && InstallOf(batches[..k], judge).failure.Some?
    ensures InstallOf(batches, judge) == InstallOf(batches[..k], judge)
    decreases |batches| - k
  {
    if k < |batches| {
      var init := batches[..|batches| - 1];
      assert init[..k] == batches[..k];
      InstallStopped(init, k, judge);
    } else {
      assert batches[..k] == batches;
    }
  }

  /**
   * `_install`'s loop over the high-priority batch and then the regular one:
   * each non-empty batch goes to apt-get, and a failed run is judged on
   * term.log as `get_last_log` as written reads it.
   */
  method Install(packages: seq<string>, ignore: set<string>, extra: seq<string>, apt: seq<string> -> AptRun) returns (p: Progress)
    ensures p == InstallOf([High(packages), Regular(packages)], b => Judge(b, ignore, extra, apt, LastLogAsWrittenOf))
  {
    var high, regular := GetPackagesPriority(packages);
    var batches := [high, regular];
    ghost var judge := b => Judge(b, ignore, extra, apt, LastLogAsWrittenOf);
    p := Progress([], {}, None);
    var k := 0;
    while k < |batches|
      invariant k <= |batches|
      invariant p == InstallOf(batches[..k], judge) && p.failure.None?
    {
      var batch := batches[k];
      assert batches[..k + 1][..k] == batches[..k];
      p := InstallBatch(p, batch, ignore, extra, apt);
      if p.failure.Some? {
        InstallStopped(batches, k + 1, judge);
        return;
      }
      k := k + 1;
    }
    assert batches[..k] == batches;
  }

  /** The body of the install loop, for one batch, with `get_last_log` as written. */
  method InstallBatch(p0: Progress, batch: seq<string>, ignore: set<string>, extra: seq<string>, apt: seq<string> -> AptRun) returns (p: Progress)
    ensures p == InstallStep(p0, batch, Judge(batch, ignore, extra, apt, LastLogAsWrittenOf))
  {
    p := p0;
    if batch != [] {
      var run := apt(AptArgs(extra, batch));
      var ignored: set<string> := {};
      if run.code != 0 {
        var log := GetLastLogAsWritten(run.termLog);
        if ErrorHeader !in log {
          if run.code == 100 {
            return Progress(p.ran + [batch], p.warned, Some(PackagesNotLocated));
          }
        } else {
          var errors := GetErrors(log, ErrorHeader, PackageOf);
          var found := set e | e in errors;
          assert found == ErrorSet(log, PackageOf);
          ignored := found * ignore;
          if found - ignore != {} {
            return Progress(p.ran + [batch], p.warned, Some(PackageErrors(found - ignore)));
          }
        }
      }
      p := Progress(p.ran + [batch], p.warned + ignored, None);
    }
  }

  /**
   * apt-get sees the high-priority packages before the regular ones, never
   * an empty batch, and the regular ones only when the high-priority run
   * raised nothing.
   */
  lemma HighBeforeRegular(high: seq<string>, regular: seq<string>, judge: seq<string> -> Verdict)
    ensures RanInOrder(InstallOf([high, regular], judge), [high, regular], judge)
    ensures NonEmpty([high, regular]) == (if high == [] then [] else [high]) + (if regular == [] then [] else [regular])
  {
    InstallRuns([high, regular], judge);
    NonEmptyPair(high, regular);
  }

  lemma NonEmptyPair(high: seq<string>, regular: seq<string>)
    ensures NonEmpty([high, regular]) == (if high == [] then [] else [high]) + (if regular == [] then [] else [regular])
  {
    assert [high, regular][..1] == [high];
    assert [high][..0] == [];
    assert NonEmpty([high]) == (if high == [] then [] else [high]);
  }

  // ---------------------------------------------------------------------
  // Which session get_last_log reads
  // ---------------------------------------------------------------------

  /**
   * As written, the verdict on a failed run only depends on the lines before
   * the first session start: when those hold no error list (term.log opens
   * with a blank line and then `Log started: `), the errors of every session
   * are missed, and any exit code but 100 lets the install go on.
   */
  lemma AsWrittenMissesErrors(before: seq<string>, start: string, after: seq<string>, code: int, ignore: set<string>, name: string -> string)
    requires NoStart(before) && IsStart(start) && ErrorHeader !in Kept(before)
    requires code != 0
    ensures CheckRun(code, LastLogAsWrittenOf(before + [start] + after), ignore, name) ==
      if code == 100 then Unlocated else Proceed({})
  {
    AsWrittenReadsFirstLines(before, start, after);
  }

  /**
   * Read from its end, the same term.log gives the last session, and an
   * error it lists on a package that is not ignored makes the install raise.
   */
  lemma LastSessionErrors(before: seq<string>, start: string, line: string, code: int, ignore: set<string>, name: string -> string)
    requires IsStart(start) && !IsStart(line) && !IsEnd(line)
    requires Strip(line, Unicode) != ErrorHeader && name(Strip(line, Unicode)) !in ignore
    requires code != 0
    ensures CheckRun(code, LastLogOf(before + [start] + [ErrorHeader, line]), ignore, name) ==
      Failed({name(Strip(line, Unicode))})
  {
    KeptErrorList(line);
    LastSession(before, start, [ErrorHeader, line]);
    ErrorListSet(Strip(line, Unicode), name);
    var n := name(Strip(line, Unicode));
    assert {n} - ignore == {n};
  }

  /** The header and an error line form one error list, which the log keeps as it is. */
  lemma KeptErrorList(line: string)
    requires !IsStart(line) && !IsEnd(line)
    ensures NoStart([ErrorHeader, line])
    ensures Kept([ErrorHeader, line]) == [ErrorHeader, Strip(line, Unicode)]
  {
    var h := ErrorHeader;
    assert h[0] == 'E' && LogStarted[0] == 'L' && LogEnded[0] == 'L';
    assert !IsStart(h) && !IsEnd(h);
    StripTrimmed(h, Unicode);
    assert [h, line][1..] == [line];
  }

  /** An error list of one line reports that line's package. */
  lemma ErrorListSet(line: string, name: string -> string)
    requires line != ErrorHeader
    ensures ErrorHeader in [ErrorHeader, line]
    ensures ErrorSet([ErrorHeader, line], name) == {name(line)}
  {
    ErrorsAfterHeader([], ErrorHeader, [line], name);
    assert [] + [ErrorHeader] + [line] == [ErrorHeader, line];
  }

  // ---------------------------------------------------------------------
  // One failed run, judged by both readers
  // ---------------------------------------------------------------------

  /**
   * As written, a failed run (exit code neither 0 nor 100) whose term.log
   * holds one session listing an error is let through: `_install` warns
   * about nothing and goes on to the next batch.
   */
  lemma JudgeAsWrittenGoesOn(batch: seq<string>, ignore: set<string>, extra: seq<string>, apt: seq<string> -> AptRun,
                             start: string, line: string)
    requires IsStart(start) && !IsStart(line) && !IsEnd(line)
    requires apt(AptArgs(extra, batch)) == AptRun(1, [start, ErrorHeader, line])
    ensures Judge(batch, ignore, extra, apt, LastLogAsWrittenOf) == Proceed({})
    ensures InstallStep(Progress([], {}, None), batch, Judge(batch, ignore, extra, apt, LastLogAsWrittenOf)).failure.None?
  {
    assert [] + [start] + [ErrorHeader, line] == [start, ErrorHeader, line];
    AsWrittenMissesErrors([], start, [ErrorHeader, line], 1, ignore, PackageOf);
  }

  /**
   * Reading term.log from its end, the same run raises: the package of the
   * error line, when not ignored, is reported.
   */
  lemma JudgeFailsOnLastSession(batch: seq<string>, ignore: set<string>, extra: seq<string>, apt: seq<string> -> AptRun,
                                start: string, line: string)
    requires IsStart(start) && !IsStart(line) && !IsEnd(line)
    requires Strip(line, Unicode) != ErrorHeader && PackageOf(Strip(line, Unicode)) !in ignore
    requires apt(AptArgs(extra, batch)) == AptRun(1, [start, ErrorHeader, line])
    ensures Judge(batch, ignore, extra, apt, LastLogOf) == Failed({PackageOf(Strip(line, Unicode))})
    ensures batch != [] ==>
      InstallStep(Progress([], {}, None), batch, Judge(batch, ignore, extra, apt, LastLogOf)).failure ==
        Some(PackageErrors({PackageOf(Strip(line, Unicode))}))
  {
    assert [] + [start] + [ErrorHeader, line] == [start, ErrorHeader, line];
    LastSessionErrors([], start, line, 1, ignore, PackageOf);
  }
}
