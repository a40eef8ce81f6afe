/**
 * fablib's removelists: one entry per line, `#` starts a comment, and an
 * entry is an optional prefix, a `/`, and a path below the build root. The
 * only known prefix is `~`, which marks a glob pattern. Applying a list
 * removes each entry's path under the root, and stops at the first entry
 * that reports an error.
 */
module FabRemovelist {
  import opened Wrappers
  import opened Text
  import opened Paths
  import PlanText

  const KnownPrefixes: set<string> := {"~"}

  /** A prefix that raises no error: none at all, or a known one. */
  predicate KnownPrefix(prefix: string) {
    prefix == "" || prefix in KnownPrefixes
  }

  /** The problem an error entry reports. */
  datatype Problem = UnknownPrefix(prefix: string, line: string)

  /** `(prefix, path, None)` or `(None, None, error)`. */
  datatype Entry = Target(prefix: string, path: string) | Invalid(problem: Problem)

  /** A line without `/`: unpacking `line.split('/', 1)` raises ValueError. */
  datatype ParseError = NoSlash(line: string)

  /**
   * Entries in the order `parse_removelist` appends them: every target path
   * starts with `/`, and an error entry stands right before the target with
   * the same unknown prefix, and nowhere else.
   */
  predicate WellFormed(out: seq<Entry>) {
    forall i :: 0 <= i < |out| ==> Placed(out, i)
  }

  /** Entry i of out is where `parse_removelist` puts it. */
  predicate Placed(out: seq<Entry>, i: nat)
    requires i < |out|
  {
    match out[i]
    case Target(prefix, path) =>
      IsPrefix("/", path) && (KnownPrefix(prefix) || (0 < i && out[i - 1].Invalid? && out[i - 1].problem.prefix == prefix))
    case Invalid(problem) =>
      i + 1 < |out| && out[i + 1].Target? && out[i + 1].prefix == problem.prefix && !KnownPrefix(problem.prefix)
  }

  /** The entries of one comment-free, stripped, non-empty line. */
  function LineEntries(line: string): (r: Result<seq<Entry>, ParseError>)
    ensures r.Err? <==> '/' !in line
    ensures r.Ok? ==> WellFormed(r.value) && r.value != [] && (r.value[0].Target? ==> KnownPrefix(r.value[0].prefix))
  {
    match Find(line, '/')
    case None => Err(NoSlash(line))
    case Some(k) =>
      var prefix := Strip(line[..k], Unicode);
      var target := Target(prefix, "/" + line[k + 1..]);
      if KnownPrefix(prefix) then
        assert Placed([target], 0);
        Ok([target])
      else
        var r := [Invalid(UnknownPrefix(prefix, line)), target];
        assert Placed(r, 0) && Placed(r, 1);
        Ok(r)
  }

  /** A line `a/b` names the path `/b` under the prefix `a` stripped. */
  lemma LineTarget(a: string, b: string)
    requires '/' !in a
    ensures var r := LineEntries(a + "/" + b);
      r.Ok? && r.value[|r.value| - 1] == Target(Strip(a, Unicode), "/" + b)
      && (|r.value| == 1 <==> KnownPrefix(Strip(a, Unicode)))
  {
    BeforeFirst(a, '/', b);
    var line := a + "/" + b;
    FindFirst(line, '/', |a|);
    assert line[..|a|] == a;
  }

  lemma WellFormedAppend(a: seq<Entry>, b: seq<Entry>)
    requires WellFormed(a) && WellFormed(b)
    requires b != [] && b[0].Target? ==> KnownPrefix(b[0].prefix)
    ensures WellFormed(a + b)
  {
    var ab := a + b;
    forall i | 0 <= i < |ab|
      ensures Placed(ab, i)
    {
      if i >= |a| {
        var j := i - |a|;
        assert Placed(b, j);
        assert ab[i] == b[j];
        if j > 0 {
          assert ab[i - 1] == b[j - 1];
        }
        if j + 1 < |b| {
          assert ab[i + 1] == b[j + 1];
        }
      } else {
        assert Placed(a, i);
        assert ab[i] == a[i];
        if 0 < i {
          assert ab[i - 1] == a[i - 1];
        }
        if i + 1 < |a| {
          assert ab[i + 1] == a[i + 1];
        }
      }
    }
  }

  /** One more line of the list: a blank line adds nothing, any other its entries. */
  function ReadLine(prev: Result<seq<Entry>, ParseError>, raw: string): (r: Result<seq<Entry>, ParseError>)
    ensures prev.Err? ==> r == prev
  {
    var line := PlanText.Declaration(raw, Unicode);
    if prev.Err? || line == [] then prev
    else
      match LineEntries(line)
      case Err(e) => Err(e)
      case Ok(entries) => Ok(prev.value + entries)
  }

  /** `parse_removelist` over the lines of a list, read from first to last. */
  function RemovelistOf(lines: seq<string>): (r: Result<seq<Entry>, ParseError>)
    decreases |lines|
  {
    if lines == [] then Ok([])
    else ReadLine(RemovelistOf(lines[..|lines| - 1]), lines[|lines| - 1])
  }

  lemma RemovelistStep(lines: seq<string>, i: nat)
    requires i < |lines|
    ensures RemovelistOf(lines[..i + 1]) == ReadLine(RemovelistOf(lines[..i]), lines[i])
  {
    assert lines[..i + 1][..i] == lines[..i];
  }

  /** Once a line fails to unpack, the rest of the list is never read. */
  lemma {:induction false} RemovelistErrPersists(lines: seq<string>, i: nat)
    requires i <= |lines| && RemovelistOf(lines[..i]).Err?
    ensures RemovelistOf(lines) == RemovelistOf(lines[..i])
    decreases |lines| - i
  {
    if i < |lines| {
      RemovelistStep(lines, i);
      RemovelistErrPersists(lines, i + 1);
    } else {
      assert lines[..i] == lines;
    }
  }

  /** `parse_removelist`: the loop that appends each line's entries to `out`. */
  method ParseRemovelist(lines: seq<string>) returns (r: Result<seq<Entry>, ParseError>)
    ensures r == RemovelistOf(lines)
  {
    var out: seq<Entry> := [];
    var i := 0;
    while i < |lines|
      invariant 0 <= i <= |lines|
      invariant RemovelistOf(lines[..i]) == Ok(out)
    {
      RemovelistStep(lines, i);
      var line := PlanText.Declaration(lines[i], Unicode);
      if line != [] {
        var entries := LineEntries(line);
        if entries.Err? {
          RemovelistErrPersists(lines, i + 1);
          return Err(entries.error);
        }
        out := out + entries.value;
      }
      i := i + 1;
    }
    assert lines[..i] == lines;
    return Ok(out);
  }

  /** Whatever the list, the entries it parses to are well formed. */
  lemma {:induction false} RemovelistWellFormed(lines: seq<string>)
    ensures RemovelistOf(lines).Ok? ==> WellFormed(RemovelistOf(lines).value)
    decreases |lines|
  {
    if lines != [] {
      var n := |lines| - 1;
      RemovelistWellFormed(lines[..n]);
      var line := PlanText.Declaration(lines[n], Unicode);
      if RemovelistOf(lines[..n]).Ok? && line != [] && LineEntries(line).Ok? {
        WellFormedAppend(RemovelistOf(lines[..n]).value, LineEntries(line).value);
      }
    }
  }

  /** A non-blank line without `/` makes the whole parse fail. */
  lemma SlashlessLineFails(lines: seq<string>, i: nat)
    requires i < |lines|
    requires PlanText.Declaration(lines[i], Unicode) != [] && '/' !in PlanText.Declaration(lines[i], Unicode)
    ensures RemovelistOf(lines).Err?
  {
    RemovelistStep(lines, i);
    SlashlessReadFails(RemovelistOf(lines[..i]), lines[i]);
    RemovelistErrPersists(lines, i + 1);
  }

  /** Reading a non-blank line without `/` fails, whatever came before. */
  lemma SlashlessReadFails(prev: Result<seq<Entry>, ParseError>, raw: string)
    requires PlanText.Declaration(raw, Unicode) != [] && '/' !in PlanText.Declaration(raw, Unicode)
    ensures ReadLine(prev, raw).Err?
  {
    assert LineEntries(PlanText.Declaration(raw, Unicode)).Err?;
  }

  /** Every line `a/b` of a list that parses contributes the target `/b` under the prefix `a` stripped. */
  lemma {:induction false} LineListed(lines: seq<string>, i: nat, a: string, b: string)
    requires i < |lines| && PlanText.Declaration(lines[i], Unicode) == a + "/" + b && '/' !in a
    requires RemovelistOf(lines).Ok?
    ensures Target(Strip(a, Unicode), "/" + b) in RemovelistOf(lines).value
    decreases |lines|
  {
    var n := |lines| - 1;
    if i < n {
      ListedStays(lines, Target(Strip(a, Unicode), "/" + b));
      assert lines[..n][i] == lines[i];
      LineListed(lines[..n], i, a, b);
    } else {
      assert lines[|lines| - 1] == lines[i];
      LastLineListed(lines, a, b);
    }
  }

  /** The entries of all lines but the last are kept when the whole list parses. */
  lemma ListedStays(lines: seq<string>, e: Entry)
    requires lines != [] && RemovelistOf(lines).Ok?
    ensures RemovelistOf(lines[..|lines| - 1]).Ok?
    ensures e in RemovelistOf(lines[..|lines| - 1]).value ==> e in RemovelistOf(lines).value
  {
    var n := |lines| - 1;
    RemovelistStep(lines, n);
    assert lines[..n + 1] == lines;
    var prev := RemovelistOf(lines[..n]);
    if e in prev.value {
      ReadLineKeeps(prev, lines[n], e);
    }
  }

  lemma LastLineListed(lines: seq<string>, a: string, b: string)
    requires lines != [] && PlanText.Declaration(lines[|lines| - 1], Unicode) == a + "/" + b && '/' !in a
    requires RemovelistOf(lines).Ok?
    ensures Target(Strip(a, Unicode), "/" + b) in RemovelistOf(lines).value
  {
    var n := |lines| - 1;
    RemovelistStep(lines, n);
    assert lines[..n + 1] == lines;
    var prev := RemovelistOf(lines[..n]);
    if prev.Err? {
      assert false;
    }
    LineTarget(a, b);
    ReadLineAdds(prev, lines[n], a + "/" + b, Target(Strip(a, Unicode), "/" + b));
  }


  lemma ReadLineKeeps(prev: Result<seq<Entry>, ParseError>, raw: string, e: Entry)
    requires ReadLine(prev, raw).Ok? && prev.Ok? && e in prev.value
    ensures e in ReadLine(prev, raw).value
  {
    var k :| 0 <= k < |prev.value| && prev.value[k] == e;
    assert ReadLine(prev, raw).value[k] == e;
  }

  lemma ReadLineAdds(prev: Result<seq<Entry>, ParseError>, raw: string, line: string, e: Entry)
    requires prev.Ok? && PlanText.Declaration(raw, Unicode) == line && line != []
    requires LineEntries(line).Ok? && LineEntries(line).value[|LineEntries(line).value| - 1] == e
    ensures ReadLine(prev, raw).Ok? && e in ReadLine(prev, raw).value
  {
    var es := LineEntries(line).value;
    assert ReadLine(prev, raw).value == prev.value + es;
    assert (prev.value + es)[|prev.value| + |es| - 1] == e;
  }



  // apply_removelist

  /** What `remove` did to one path. */
  datatype Removal = NotFound(path: string) | Unlinked(path: string) | RemovedTree(path: string)

  /** The tree after `remove(path)`, and what it did. */
  datatype Removed = Removed(fs: FileSystem, removal: Removal)

  /** A missing path only warns, a file is unlinked, anything else is removed with its contents. */
  function Remove(fs: FileSystem, path: string): (r: Removed)
    ensures r.removal.path == path && path !in r.fs
    ensures r.removal.NotFound? <==> path !in fs
    ensures r.removal.Unlinked? <==> path in fs && fs[path] == File
    ensures forall q :: q in r.fs ==> q in fs && r.fs[q] == fs[q]
    ensures forall q :: q in fs && q !in r.fs ==> q == path || (r.removal.RemovedTree? && Inside(q, path))
  {
    if path !in fs then Removed(fs, NotFound(path))
    else if fs[path] == File then Removed(fs - {path}, Unlinked(path))
    else Removed(WithoutTree(fs, path), RemovedTree(path))
  }

  /** `path.strip('/')`: the entry's path without its leading and trailing separators. */
  function Relative(path: string): (r: string)
    ensures r == [] || (r[0] != '/' && r[|r| - 1] != '/')
  {
    var left := TrimLeft(path, IsSlash);
    TrimLeftKept(path, IsSlash);
    TrimRightKept(left, IsSlash);
    var r := TrimRight(left, IsSlash);
    assert r != [] ==> r[0] == left[0];
    r
  }

  /** The path an entry names: the root joined with its relative path. */
  function TargetPath(root: string, path: string): string {
    PathJoin(root, Relative(path))
  }

  /** An entry's target always lies under the root, whatever separators its path starts with. */
  lemma TargetUnderRoot(root: string, path: string)
    ensures IsPrefix(root, TargetPath(root, path))
    ensures root != [] && root[|root| - 1] != '/' && Relative(path) != [] ==> Inside(TargetPath(root, path), root)
  {
    JoinRelative(root, Relative(path));
  }

  /** Each removal in turn, as the loop over `glob.glob(path)` runs them. */
  function RemoveAllOf(fs: FileSystem, paths: seq<string>): (r: (FileSystem, seq<Removal>))
    ensures |r.1| == |paths|
    decreases |paths|
  {
    if paths == [] then (fs, [])
    else
      var prev := RemoveAllOf(fs, paths[..|paths| - 1]);
      var last := Remove(prev.0, paths[|paths| - 1]);
      (last.fs, prev.1 + [last.removal])
  }

  /**
   * The state of `apply_removelist` after some entries: the tree, the
   * removals so far, and the problem `fatal` stopped at, if any.
   */
  datatype Applied = Applied(fs: FileSystem, log: seq<Removal>, fatal: Option<Problem>)

  /** One entry: an error stops everything, a `~` entry removes what its pattern matches, any other its target. */
  function ApplyEntry(a: Applied, e: Entry, root: string, glob: (FileSystem, string) -> seq<string>): Applied {
    if a.fatal.Some? then a
    else
      match e
      case Invalid(p) => Applied(a.fs, a.log, Some(p))
      case Target(prefix, path) =>
        var target := TargetPath(root, path);
        if prefix == "~" then
          var r := RemoveAllOf(a.fs, glob(a.fs, target));
          Applied(r.0, a.log + r.1, None)
        else
          var r := Remove(a.fs, target);
          Applied(r.fs, a.log + [r.removal], None)
  }

  /** `apply_removelist` over parsed entries, read from first to last. */
  function ApplyOf(entries: seq<Entry>, root: string, fs: FileSystem, glob: (FileSystem, string) -> seq<string>): Applied
    decreases |entries|
  {
    if entries == [] then Applied(fs, [], None)
    else ApplyEntry(ApplyOf(entries[..|entries| - 1], root, fs, glob), entries[|entries| - 1], root, glob)
  }

  lemma ApplyStep(entries: seq<Entry>, i: nat, root: string, fs: FileSystem, glob: (FileSystem, string) -> seq<string>)
    requires i < |entries|
    ensures ApplyOf(entries[..i + 1], root, fs, glob) == ApplyEntry(ApplyOf(entries[..i], root, fs, glob), entries[i], root, glob)
  {
    assert entries[..i + 1][..i] == entries[..i];
  }

  /** Why applying a list stopped: it did not parse, or `fatal` was called on an error entry. */
  datatype ApplyError = Unparsable(error: ParseError) | Fatal(problem: Problem)

  /** The loop over the paths a `~` pattern matched. */
  method RemoveAll(fs: FileSystem, paths: seq<string>) returns (after: FileSystem, log: seq<Removal>)
    ensures (after, log) == RemoveAllOf(fs, paths)
  {
    after, log := fs, [];
    var i := 0;
    while i < |paths|
      invariant 0 <= i <= |paths|
      invariant (after, log) == RemoveAllOf(fs, paths[..i])
    {
      assert paths[..i + 1][..i] == paths[..i];
      var r := Remove(after, paths[i]);
      after, log := r.fs, log + [r.removal];
      i := i + 1;
    }
    assert paths[..i] == paths;
  }

  /** One entry without an error: its pattern's matches, or its target, removed. */
  method ApplyTarget(fs: FileSystem, log: seq<Removal>, prefix: string, path: string, root: string, glob: (FileSystem, string) -> seq<string>)
    returns (after: FileSystem, log': seq<Removal>)
    ensures Applied(after, log', None) == ApplyEntry(Applied(fs, log, None), Target(prefix, path), root, glob)
  {
    var target := TargetPath(root, path);
    if prefix == "~" {
      var removed;
      after, removed := RemoveAll(fs, glob(fs, target));
      log' := log + removed;
    } else {
      var removed := Remove(fs, target);
      after, log' := removed.fs, log + [removed.removal];
    }
  }

  /**
   * `apply_removelist`: parse the list, then remove entry by entry; the
   * first error entry calls `fatal`, after the removals before it.
   */
  method ApplyRemovelist(lines: seq<string>, root: string, fs: FileSystem, glob: (FileSystem, string) -> seq<string>)
    returns (after: FileSystem, log: seq<Removal>, r: Result<(), ApplyError>)
    ensures RemovelistOf(lines).Err? ==> after == fs && log == [] && r == Err(Unparsable(RemovelistOf(lines).error))
    ensures RemovelistOf(lines).Ok? ==>
      var a := ApplyOf(RemovelistOf(lines).value, root, fs, glob);
      after == a.fs && log == a.log && r == (if a.fatal.Some? then Err(Fatal(a.fatal.value)) else Ok(()))
  {
    var parsed := ParseRemovelist(lines);
    if parsed.Err? {
      return fs, [], Err(Unparsable(parsed.error));
    }
    var entries := parsed.value;
    after, log := fs, [];
    var i := 0;
    while i < |entries|
      invariant 0 <= i <= |entries|
      invariant ApplyOf(entries[..i], root, fs, glob) == Applied(after, log, None)
    {
      ApplyStep(entries, i, root, fs, glob);
      match entries[i]
      case Invalid(p) =>
        ApplyStopped(entries, i + 1, root, fs, glob);
        return after, log, Err(Fatal(p));
      case Target(prefix, path) =>
        after, log := ApplyTarget(after, log, prefix, path, root, glob);
      i := i + 1;
    }
    assert entries[..i] == entries;
    return after, log, Ok(());
  }

  /** After `fatal`, no later entry is applied. */
  lemma {:induction false} ApplyStopped(entries: seq<Entry>, i: nat, root: string, fs: FileSystem, glob: (FileSystem, string) -> seq<string>)
    requires i <= |entries| && ApplyOf(entries[..i], root, fs, glob).fatal.Some?
    ensures ApplyOf(entries, root, fs, glob) == ApplyOf(entries[..i], root, fs, glob)
    decreases |entries| - i
  {
    if i < |entries| {
      ApplyStep(entries, i, root, fs, glob);
      ApplyStopped(entries, i + 1, root, fs, glob);
    } else {
      assert entries[..i] == entries;
    }
  }

  /** The first error entry is the one `fatal` reports, and nothing after it is applied. */
  lemma FatalAtFirstError(entries: seq<Entry>, i: nat, root: string, fs: FileSystem, glob: (FileSystem, string) -> seq<string>)
    requires i < |entries| && entries[i].Invalid?
    requires forall j :: 0 <= j < i ==> entries[j].Target?
    ensures ApplyOf(entries, root, fs, glob).fatal == Some(entries[i].problem)
    ensures ApplyOf(entries, root, fs, glob) == ApplyOf(entries[..i + 1], root, fs, glob)
  {
    NoFatalBefore(entries, i, root, fs, glob);
    ApplyStep(entries, i, root, fs, glob);
    ApplyStopped(entries, i + 1, root, fs, glob);
  }

  /** Entries without errors never stop the application. */
  lemma {:induction false} NoFatalBefore(entries: seq<Entry>, i: nat, root: string, fs: FileSystem, glob: (FileSystem, string) -> seq<string>)
    requires i <= |entries|
    requires forall j :: 0 <= j < i ==> entries[j].Target?
    ensures ApplyOf(entries[..i], root, fs, glob).fatal.None?
    decreases i
  {
    if i > 0 {
      ApplyStep(entries, i - 1, root, fs, glob);
      NoFatalBefore(entries, i - 1, root, fs, glob);
    }
  }

  /**
   * Every path removed from the tree is accounted for by the log: it was
   * unlinked, or removed as a directory or inside one.
   */
  predicate Accounted(q: string, log: seq<Removal>) {
    exists k :: 0 <= k < |log| && !log[k].NotFound? && (q == log[k].path || (log[k].RemovedTree? && Inside(q, log[k].path)))
  }

  /** Applying only removes: what is left is unchanged, and everything gone is in the log. */
  predicate OnlyRemoved(before: FileSystem, a: Applied) {
    (forall q :: q in a.fs ==> q in before && a.fs[q] == before[q])
    && (forall q :: q in before && q !in a.fs ==> Accounted(q, a.log))
  }

  lemma AccountedLater(q: string, log: seq<Removal>, more: seq<Removal>)
    requires Accounted(q, log)
    ensures Accounted(q, log + more)
  {
    var k :| 0 <= k < |log| && !log[k].NotFound? && (q == log[k].path || (log[k].RemovedTree? && Inside(q, log[k].path)));
    assert (log + more)[k] == log[k];
  }

  lemma AccountedLast(q: string, log: seq<Removal>, r: Removal)
    requires !r.NotFound? && (q == r.path || (r.RemovedTree? && Inside(q, r.path)))
    ensures Accounted(q, log + [r])
  {
    assert (log + [r])[|log|] == r;
  }

  lemma OnlyRemovedStep(before: FileSystem, a: Applied, path: string)
    requires OnlyRemoved(before, a)
    ensures var r := Remove(a.fs, path); OnlyRemoved(before, Applied(r.fs, a.log + [r.removal], None))
  {
    var r := Remove(a.fs, path);
    forall q | q in before && q !in r.fs
      ensures Accounted(q, a.log + [r.removal])
    {
      if q in a.fs {
        AccountedLast(q, a.log, r.removal);
      } else {
        AccountedLater(q, a.log, [r.removal]);
      }
    }
  }

  lemma {:induction false} RemoveAllOnly(before: FileSystem, a: Applied, paths: seq<string>)
    requires OnlyRemoved(before, a)
    ensures var r := RemoveAllOf(a.fs, paths); OnlyRemoved(before, Applied(r.0, a.log + r.1, None))
    decreases |paths|
  {
    if paths == [] {
      assert a.log + [] == a.log;
    } else {
      var init := paths[..|paths| - 1];
      RemoveAllOnly(before, a, init);
      var prev := RemoveAllOf(a.fs, init);
      OnlyRemovedStep(before, Applied(prev.0, a.log + prev.1, None), paths[|paths| - 1]);
      var last := Remove(prev.0, paths[|paths| - 1]);
      var r := RemoveAllOf(a.fs, paths);
      assert r == (last.fs, prev.1 + [last.removal]);
      assert a.log + r.1 == a.log + prev.1 + [last.removal];
      assert Applied(r.0, a.log + r.1, None) == Applied(last.fs, a.log + prev.1 + [last.removal], None);
    }
  }

  /** `apply_removelist` removes only what its log reports, and changes nothing it keeps. */
  lemma {:induction false} ApplyOnlyRemoves(entries: seq<Entry>, root: string, fs: FileSystem, glob: (FileSystem, string) -> seq<string>)
    ensures OnlyRemoved(fs, ApplyOf(entries, root, fs, glob))
    decreases |entries|
  {
    if entries != [] {
      var init := entries[..|entries| - 1];
      ApplyOnlyRemoves(init, root, fs, glob);
      var a := ApplyOf(init, root, fs, glob);
      if a.fatal.None? {
        match entries[|entries| - 1]
        case Invalid(p) =>
        case Target(prefix, path) =>
          var target := TargetPath(root, path);
          if prefix == "~" {
            RemoveAllOnly(fs, Applied(a.fs, a.log, None), glob(a.fs, target));
          } else {
            OnlyRemovedStep(fs, Applied(a.fs, a.log, None), target);
          }
      }
    }
  }

  /** Application never adds to the tree. */
  lemma {:induction false} ApplyShrinks(entries: seq<Entry>, root: string, fs: FileSystem, glob: (FileSystem, string) -> seq<string>, i: nat)
    requires i <= |entries|
    ensures ApplyOf(entries, root, fs, glob).fs.Keys <= ApplyOf(entries[..i], root, fs, glob).fs.Keys
    decreases |entries| - i
  {
    if i < |entries| {
      ApplyStep(entries, i, root, fs, glob);
      var a := ApplyOf(entries[..i], root, fs, glob);
      if a.fatal.None? && entries[i].Target? && entries[i].prefix == "~" {
        RemoveAllShrinks(a.fs, glob(a.fs, TargetPath(root, entries[i].path)));
      }
      ApplyShrinks(entries, root, fs, glob, i + 1);
    } else {
      assert entries[..i] == entries;
    }
  }

  lemma {:induction false} RemoveAllShrinks(fs: FileSystem, paths: seq<string>)
    ensures RemoveAllOf(fs, paths).0.Keys <= fs.Keys
    decreases |paths|
  {
    if paths != [] {
      RemoveAllShrinks(fs, paths[..|paths| - 1]);
    }
  }

  /**
   * Every plain entry before the first error entry is gone afterwards: its
   * target does not exist in the resulting tree.
   */
  lemma PlainTargetGone(entries: seq<Entry>, i: nat, root: string, fs: FileSystem, glob: (FileSystem, string) -> seq<string>)
    requires i < |entries| && entries[i].Target? && entries[i].prefix != "~"
    requires forall j :: 0 <= j < i ==> entries[j].Target?
    ensures TargetPath(root, entries[i].path) !in ApplyOf(entries, root, fs, glob).fs
  {
    NoFatalBefore(entries, i, root, fs, glob);
    ApplyStep(entries, i, root, fs, glob);
    var a := ApplyOf(entries[..i], root, fs, glob);
    var r := Remove(a.fs, TargetPath(root, entries[i].path));
    assert ApplyOf(entries[..i + 1], root, fs, glob).fs == r.fs;
    ApplyShrinks(entries, root, fs, glob, i + 1);
  }
}
