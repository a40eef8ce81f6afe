/**
 * The command-line removelist tool: each line of the list names a path
 * under the root, `#` starts a comment, and a line `!path` names a path to
 * bring back. Applying the list moves every named path out of the root into
 * a holding directory, then moves every `!` path back, and finally deletes
 * the holding directory when it was a fresh temporary one.
 */
module CmdApplyRemovelist {
  import opened Wrappers
  import opened Text
  import opened Paths
  import PlanText

  // parse_list

  /** The two lists `parse_list` returns: paths to move out, paths to move back. */
  datatype Lists = Lists(remove: seq<string>, restore: seq<string>)

  /** One more line: blank lines are skipped, `!path` goes to restore, any other line to remove. */
  function SortLine(lists: Lists, raw: string): Lists {
    SortDeclaration(lists, LineExpr(raw))
  }

  /** One more declaration: an empty one is skipped, `!path` goes to restore, any other to remove. */
  function SortDeclaration(lists: Lists, expr: string): Lists {
    if expr == [] then lists
    else if expr[0] == '!' then Lists(lists.remove, lists.restore + [expr[1..]])
    else Lists(lists.remove + [expr], lists.restore)
  }

  /** `parse_list` over the lines of a list, read from first to last. */
  function ListsOf(lines: seq<string>): Lists
    decreases |lines|
  {
    if lines == [] then Lists([], [])
    else SortLine(ListsOf(lines[..|lines| - 1]), lines[|lines| - 1])
  }

  lemma ListsStep(lines: seq<string>, i: nat)
    requires i < |lines|
    ensures ListsOf(lines[..i + 1]) == SortLine(ListsOf(lines[..i]), lines[i])
  {
    assert lines[..i + 1][..i] == lines[..i];
  }

  /** Sorts the lines of the list into the paths to remove and those to restore. */
  method ParseList(lines: seq<string>) returns (remove: seq<string>, restore: seq<string>)
    ensures Lists(remove, restore) == ListsOf(lines)
  {
    remove, restore := [], [];
    var i := 0;
    while i < |lines|
      invariant 0 <= i <= |lines|
      invariant Lists(remove, restore) == ListsOf(lines[..i])
    {
      ListsStep(lines, i);
      var expr := PlanText.Declaration(lines[i], Bytes);
      if expr != [] {
        if expr[0] == '!' {
          restore := restore + [expr[1..]];
        } else {
          remove := remove + [expr];
        }
      }
      i := i + 1;
    }
    assert lines[..i] == lines;
  }

  /** A line of the list as `parse_list` reads it: a declaration of a byte string. */
  function LineExpr(raw: string): string {
    PlanText.Declaration(raw, Bytes)
  }

  /** The non-blank declarations of the lines, in order. */
  function Declared(lines: seq<string>): (ds: seq<string>)
    ensures forall i :: 0 <= i < |ds| ==> ds[i] != []
  {
    NonBlank(lines, LineExpr)
  }

  /** The lines' non-empty images under decl, in order. */
  function NonBlank(lines: seq<string>, decl: string -> string): (ds: seq<string>)
    ensures forall i :: 0 <= i < |ds| ==> ds[i] != []
    decreases |lines|
  {
    if lines == [] then []
    else
      var d := decl(lines[0]);
      (if d == [] then [] else [d]) + NonBlank(lines[1..], decl)
  }

  /** The declarations that name a path to remove, in order. */
  function Removals(ds: seq<string>): seq<string>
    decreases |ds|
  {
    if ds == [] then []
    else (if ds[0] != [] && ds[0][0] != '!' then [ds[0]] else []) + Removals(ds[1..])
  }

  /** The paths of the `!` declarations, in order. */
  function Restorations(ds: seq<string>): seq<string>
    decreases |ds|
  {
    if ds == [] then []
    else (if ds[0] != [] && ds[0][0] == '!' then [ds[0][1..]] else []) + Restorations(ds[1..])
  }

  lemma DeclaredAppend(a: seq<string>, b: seq<string>)
    ensures Declared(a + b) == Declared(a) + Declared(b)
  {
    NonBlankAppend(a, b, LineExpr);
  }

  lemma NonBlankOne(raw: string, decl: string -> string)
    ensures NonBlank([raw], decl) == if decl(raw) == [] then [] else [decl(raw)]
  {
    assert [raw][1..] == [];
  }

  lemma {:induction false} NonBlankAppend(a: seq<string>, b: seq<string>, decl: string -> string)
    ensures NonBlank(a + b, decl) == NonBlank(a, decl) + NonBlank(b, decl)
    decreases |a|
  {
    if a != [] {
      assert (a + b)[1..] == a[1..] + b;
      NonBlankAppend(a[1..], b, decl);
    } else {
      assert a + b == b;
    }
  }

  lemma {:induction false} RemovalsAppend(a: seq<string>, b: seq<string>)
    ensures Removals(a + b) == Removals(a) + Removals(b)
    decreases |a|
  {
    if a != [] {
      assert (a + b)[1..] == a[1..] + b;
      RemovalsAppend(a[1..], b);
    } else {
      assert a + b == b;
    }
  }

  lemma {:induction false} RestorationsAppend(a: seq<string>, b: seq<string>)
    ensures Restorations(a + b) == Restorations(a) + Restorations(b)
    decreases |a|
  {
    if a != [] {
      assert (a + b)[1..] == a[1..] + b;
      RestorationsAppend(a[1..], b);
    } else {
      assert a + b == b;
    }
  }

  /**
   * `parse_list` keeps every `!` declaration (without its `!`) in the
   * restore list and every other non-blank declaration in the remove list,
   * each list in the order of the lines.
   */
  lemma {:induction false} ListsAreFilters(lines: seq<string>)
    ensures ListsOf(lines) == Lists(Removals(Declared(lines)), Restorations(Declared(lines)))
    decreases |lines|
  {
    if lines != [] {
      var init := lines[..|lines| - 1];
      var last := lines[|lines| - 1];
      ListsAreFilters(init);
      assert lines == init + [last];
      DeclaredAppend(init, [last]);
      var before := Declared(init);
      var tail := Declared([last]);
      RemovalsAppend(before, tail);
      RestorationsAppend(before, tail);
      SortLineFilters(Lists(Removals(before), Restorations(before)), last);
    }
  }

  /** One line adds its own filtered declaration to each list. */
  lemma SortLineFilters(lists: Lists, raw: string)
    ensures var tail := Declared([raw]);
      SortLine(lists, raw) == Lists(lists.remove + Removals(tail), lists.restore + Restorations(tail))
  {
    NonBlankOne(raw, LineExpr);
    SortDeclarationFilters(lists, LineExpr(raw));
  }

  /** A declaration lands in the list its own filter puts it in, and nowhere if it is empty. */
  lemma SortDeclarationFilters(lists: Lists, d: string)
    ensures var tail := if d == [] then [] else [d];
      SortDeclaration(lists, d) == Lists(lists.remove + Removals(tail), lists.restore + Restorations(tail))
  {
    if d == [] {
      assert lists.remove + [] == lists.remove;
      assert lists.restore + [] == lists.restore;
    } else {
      assert [d][1..] == [];
    }
  }


  /** Each non-blank declaration lands in exactly one of the two lists. */
  lemma {:induction false} EachDeclarationOnce(ds: seq<string>)
    requires forall i :: 0 <= i < |ds| ==> ds[i] != []
    ensures |Removals(ds)| + |Restorations(ds)| == |ds|
    decreases |ds|
  {
    if ds != [] {
      assert ds[0] != [];
      EachDeclarationOnce(ds[1..]);
    }
  }

  /** Together the two lists hold one path per non-blank line. */
  lemma ListsCount(lines: seq<string>)
    ensures var l := ListsOf(lines); |l.remove| + |l.restore| == |Declared(lines)|
  {
    ListsAreFilters(lines);
    EachDeclarationOnce(Declared(lines));
  }

  // _move: the two paths

  /** `entry.lstrip('/')`: the entry relative to either tree. */
  function Unrooted(entry: string): (r: string)
    ensures r == [] || r[0] != '/'
  {
    TrimLeftKept(entry, IsSlash);
    TrimLeft(entry, IsSlash)
  }

  /** The path `_move` moves: the entry under the source tree. */
  function MoveSource(entry: string, srcpath: string): string {
    PathJoin(srcpath, Unrooted(entry))
  }

  /** Where `_move` moves it to: the entry's directory under the destination tree. */
  function MoveTarget(entry: string, dstpath: string): string {
    PathJoin(dstpath, Dirname(Unrooted(entry)))
  }

  /**
   * Both paths stay inside their trees, whatever separators the entry
   * starts with: the source is the entry under srcpath, the target the
   * entry's directory under dstpath.
   */
  lemma MovePaths(entry: string, srcpath: string, dstpath: string)
    ensures IsPrefix(srcpath, MoveSource(entry, srcpath)) && IsPrefix(dstpath, MoveTarget(entry, dstpath))
    ensures srcpath != [] && srcpath[|srcpath| - 1] != '/' ==> MoveSource(entry, srcpath) == srcpath + "/" + Unrooted(entry)
    ensures dstpath != [] && dstpath[|dstpath| - 1] != '/' ==> MoveTarget(entry, dstpath) == dstpath + "/" + Dirname(Unrooted(entry))
  {
    var rel := Unrooted(entry);
    JoinRelative(srcpath, rel);
    var dir := Dirname(rel);
    assert dir != [] ==> dir[0] == rel[0];
    JoinRelative(dstpath, dir);
  }

  /** An entry `/d/b` comes from `srcpath/d/b` and goes to `dstpath/d`. */
  lemma NestedEntry(d: string, b: string, srcpath: string, dstpath: string)
    requires d != [] && d[0] != '/' && d[|d| - 1] != '/' && '/' !in b
    requires srcpath != [] && srcpath[|srcpath| - 1] != '/' && dstpath != [] && dstpath[|dstpath| - 1] != '/'
    ensures Unrooted("/" + d + "/" + b) == d + "/" + b
    ensures MoveSource("/" + d + "/" + b, srcpath) == srcpath + "/" + d + "/" + b
    ensures MoveTarget("/" + d + "/" + b, dstpath) == dstpath + "/" + d
  {
    var entry := "/" + d + "/" + b;
    assert entry[1..] == d + "/" + b;
    assert TrimLeft(entry, IsSlash) == TrimLeft(d + "/" + b, IsSlash);
    assert Unrooted(entry) == d + "/" + b;
    DirnameBasename(d, b);
    MovePaths(entry, srcpath, dstpath);
  }

  // The file tree, seen through path strings

  /** A path without its trailing separators, unless it is made of separators only. */
  function Norm(p: string): string {
    var t := TrimRight(p, IsSlash);
    if t == [] then p else t
  }

  /** What a path names; a trailing separator names only a directory. */
  function Lookup(fs: FileSystem, p: string): Option<Node> {
    var n := Norm(p);
    if n !in fs || (n != p && fs[n] == File) then None else Some(fs[n])
  }

  /** q is p or lies inside it. */
  predicate Under(q: string, p: string) {
    q == p || Inside(q, p)
  }

  /** q, which lies under src, moved under dest. */
  function Rebase(q: string, src: string, dest: string): string
    requires Under(q, src)
  {
    assert IsPrefix(src, q) by {
      if q != src {
        assert q[..|src|] == q[..|src| + 1][..|src|];
      }
    }
    dest + q[|src|..]
  }

  lemma RebaseInjective(src: string, dest: string)
    ensures forall q1, q2 :: Under(q1, src) && Under(q2, src) && Rebase(q1, src, dest) == Rebase(q2, src, dest) ==> q1 == q2
  {
    forall q1, q2 | Under(q1, src) && Under(q2, src) && Rebase(q1, src, dest) == Rebase(q2, src, dest)
      ensures q1 == q2
    {
      assert q1[|src|..] == Rebase(q1, src, dest)[|dest|..];
      assert q2[|src|..] == Rebase(q2, src, dest)[|dest|..];
      assert IsPrefix(src, q1) && IsPrefix(src, q2);
      assert q1 == src + q1[|src|..];
      assert q2 == src + q2[|src|..];
    }
  }

  /** `os.rename(src, dest)`: src and everything inside it now lie under dest. */
  function Rename(fs: FileSystem, src: string, dest: string): FileSystem {
    RebaseInjective(src, dest);
    WithoutTree(fs, src) + map q | q in fs && Under(q, src) :: Rebase(q, src, dest) := fs[q]
  }

  /** Why a file-system call raised. */
  datatype FsError =
    | NotADirectory(path: string)
    | DestinationExists(path: string)
    | IntoItself(path: string)
    | NoParent(path: string)
    | CannotReplace(path: string)

  /** The directories `os.makedirs(n)` needs: each prefix of n that ends before a separator, and n. */
  function Chain(n: string): set<string> {
    set k | 0 < k <= |n| && (k == |n| || n[k] == '/') :: n[..k]
  }

  /** `os.makedirs(p)`: every missing directory on the way to p is created; a file on the way raises. */
  function Makedirs(fs: FileSystem, p: string): Result<FileSystem, FsError> {
    var chain := Chain(Norm(p));
    if exists q :: q in chain && q in fs && fs[q] == File then Err(NotADirectory(p))
    else Ok(fs + map q | q in chain && q !in fs :: Dir)
  }

  /** The tool's `mkdir`: nothing when the path exists, `os.makedirs` otherwise. */
  function Mkdir(fs: FileSystem, p: string): Result<FileSystem, FsError> {
    if Lookup(fs, p).Some? then Ok(fs) else Makedirs(fs, p)
  }

  /**
   * `shutil.move(src, dst)`: into dst when dst is a directory, else onto
   * dst. A file replaces a file; any other clash, a missing parent, or a
   * directory moved into itself raises.
   */
  function ShutilMove(fs: FileSystem, src: string, dst: string): Result<FileSystem, FsError> {
    var from := Norm(src);
    var into := Lookup(fs, dst) == Some(Dir);
    var target := if into then PathJoin(dst, Basename(from)) else dst;
    var to := Norm(target);
    if into && Norm(dst) == from then Ok(fs)
    else if into && Lookup(fs, target).Some? then Err(DestinationExists(target))
    else if to == from then Ok(fs)
    else if Under(to, from) then Err(IntoItself(target))
    else if Dirname(to) != "" && Lookup(fs, Dirname(to)) != Some(Dir) then Err(NoParent(target))
    else if Lookup(fs, target).Some? && !(Lookup(fs, target) == Some(File) && Lookup(fs, src) == Some(File)) then Err(CannotReplace(target))
    else Ok(Rename(fs, from, to))
  }

  // _move

  /** What `_move` did with one entry: moved it, or warned that it does not exist. */
  datatype Event = Moved(src: string, dst: string) | Missing(entry: string)

  /**
   * `_move` with the directory it prepares corrected to the target itself,
   * so that the entry always lands inside it: a missing source only warns,
   * and any other entry is moved from under srcpath to under dstpath.
   */
  function MoveEntry(fs: FileSystem, entry: string, srcpath: string, dstpath: string): Result<(FileSystem, Event), FsError> {
    var src := MoveSource(entry, srcpath);
    var dst := MoveTarget(entry, dstpath);
    if Lookup(fs, src).None? then Ok((fs, Missing(Unrooted(entry))))
    else
      match Mkdir(fs, dst)
      case Err(e) => Err(e)
      case Ok(made) =>
        match ShutilMove(made, src, dst)
        case Err(e) => Err(e)
        case Ok(moved) => Ok((moved, Moved(src, dst)))
  }

  /**
   * `_move` as written: it creates only the parent of the target, so when
   * the target directory is missing the entry is renamed to the target's
   * own path instead of landing inside it.
   */
  function MoveEntryAsWritten(fs: FileSystem, entry: string, srcpath: string, dstpath: string): Result<(FileSystem, Event), FsError> {
    var src := MoveSource(entry, srcpath);
    var dst := MoveTarget(entry, dstpath);
    if Lookup(fs, src).None? then Ok((fs, Missing(Unrooted(entry))))
    else
      match Mkdir(fs, Dirname(dst))
      case Err(e) => Err(e)
      case Ok(made) =>
        match ShutilMove(made, src, dst)
        case Err(e) => Err(e)
        case Ok(moved) => Ok((moved, Moved(src, dst)))
  }

  /** A missing source only warns, in both versions of `_move`: the tree is left as it was. */
  lemma MissingOnlyWarns(fs: FileSystem, entry: string, srcpath: string, dstpath: string)
    ensures var r := MoveEntry(fs, entry, srcpath, dstpath);
      Lookup(fs, MoveSource(entry, srcpath)).None? <==> r.Ok? && r.value.1.Missing?
    ensures var r := MoveEntryAsWritten(fs, entry, srcpath, dstpath);
      Lookup(fs, MoveSource(entry, srcpath)).None? <==> r.Ok? && r.value.1.Missing?
    ensures Lookup(fs, MoveSource(entry, srcpath)).None? ==>
      MoveEntry(fs, entry, srcpath, dstpath) == Ok((fs, Missing(Unrooted(entry)))) &&
      MoveEntryAsWritten(fs, entry, srcpath, dstpath) == Ok((fs, Missing(Unrooted(entry))))
  {
  }

  /** The event a successful move of one entry records. */
  predicate Records(ev: Event, entry: string, srcpath: string, dstpath: string) {
    ev == Moved(MoveSource(entry, srcpath), MoveTarget(entry, dstpath)) || ev == Missing(Unrooted(entry))
  }

  /** A move that succeeds, in either version, records what it moved, or that the entry is missing. */
  lemma MoveRecords(fs: FileSystem, entry: string, srcpath: string, dstpath: string)
    ensures var r := MoveEntry(fs, entry, srcpath, dstpath); r.Ok? ==> Records(r.value.1, entry, srcpath, dstpath)
    ensures var r := MoveEntryAsWritten(fs, entry, srcpath, dstpath); r.Ok? ==> Records(r.value.1, entry, srcpath, dstpath)
  {
  }

  // apply_removelist

  /** The tree after some moves, and what each of them did. */
  datatype Moves = Moves(fs: FileSystem, events: seq<Event>)

  /**
   * How one entry is moved out of one tree into another: `_move(entry,
   * srcpath, dstpath)` as written (MoveEntryAsWritten) or corrected (MoveEntry).
   */
  type Mover = (FileSystem, string, string, string) -> Result<(FileSystem, Event), FsError>

  /** One more entry: moved unless an earlier move raised. */
  function MoveStep(prev: Result<Moves, FsError>, entry: string, srcpath: string, dstpath: string, move: Mover): Result<Moves, FsError> {
    match prev
    case Err(_) => prev
    case Ok(m) =>
      match move(m.fs, entry, srcpath, dstpath)
      case Err(e) => Err(e)
      case Ok(done) => Ok(Moves(done.0, m.events + [done.1]))
  }

  /** The loop `for entry in entries: _move(entry, srcpath, dstpath)`, read from first to last. */
  function MovesOf(fs: FileSystem, entries: seq<string>, srcpath: string, dstpath: string, move: Mover): Result<Moves, FsError>
    decreases |entries|
  {
    if entries == [] then Ok(Moves(fs, []))
    else MoveStep(MovesOf(fs, entries[..|entries| - 1], srcpath, dstpath, move), entries[|entries| - 1], srcpath, dstpath, move)
  }

  lemma MovesStep(fs: FileSystem, entries: seq<string>, i: nat, srcpath: string, dstpath: string, move: Mover)
    requires i < |entries|
    ensures MovesOf(fs, entries[..i + 1], srcpath, dstpath, move) ==
      MoveStep(MovesOf(fs, entries[..i], srcpath, dstpath, move), entries[i], srcpath, dstpath, move)
  {
    assert entries[..i + 1][..i] == entries[..i];
  }

  /** Moves each entry in turn with the given `_move`, stopping at the first move that raises. */
  method MoveAll(fs: FileSystem, entries: seq<string>, srcpath: string, dstpath: string, move: Mover) returns (r: Result<Moves, FsError>)
    ensures r == MovesOf(fs, entries, srcpath, dstpath, move)
  {
    var after, events := fs, [];
    var i := 0;
    while i < |entries|
      invariant 0 <= i <= |entries|
      invariant MovesOf(fs, entries[..i], srcpath, dstpath, move) == Ok(Moves(after, events))
    {
      MovesStep(fs, entries, i, srcpath, dstpath, move);
      var moved := move(after, entries[i], srcpath, dstpath);
      if moved.Err? {
        MovesFailed(fs, entries, i + 1, srcpath, dstpath, move);
        return Err(moved.error);
      }
      after, events := moved.value.0, events + [moved.value.1];
      i := i + 1;
    }
    assert entries[..i] == entries;
    r := Ok(Moves(after, events));
  }

  /** Once a move raises, the later entries are not moved. */
  lemma {:induction false} MovesFailed(fs: FileSystem, entries: seq<string>, i: nat, srcpath: string, dstpath: string, move: Mover)
    requires i <= |entries| && MovesOf(fs, entries[..i], srcpath, dstpath, move).Err?
    ensures MovesOf(fs, entries, srcpath, dstpath, move) == MovesOf(fs, entries[..i], srcpath, dstpath, move)
    decreases |entries| - i
  {
    if i < |entries| {
      MovesStep(fs, entries, i, srcpath, dstpath, move);
      MovesFailed(fs, entries, i + 1, srcpath, dstpath, move);
    } else {
      assert entries[..i] == entries;
    }
  }

  /** A single entry is a single move. */
  lemma MovesOne(fs: FileSystem, entry: string, srcpath: string, dstpath: string, move: Mover)
    ensures var done := move(fs, entry, srcpath, dstpath);
      MovesOf(fs, [entry], srcpath, dstpath, move) == if done.Err? then Err(done.error) else Ok(Moves(done.value.0, [done.value.1]))
  {
    assert [entry][..0] == [];
    assert MovesOf(fs, [], srcpath, dstpath, move) == Ok(Moves(fs, []));
    var done := move(fs, entry, srcpath, dstpath);
    if done.Ok? {
      assert [] + [done.value.1] == [done.value.1];
    }
  }

  /** Each event records the entry at its own position, one event per entry. */
  predicate AllRecorded(ev: seq<Event>, entries: seq<string>, srcpath: string, dstpath: string) {
    |ev| == |entries| && forall i :: 0 <= i < |ev| ==> Records(ev[i], entries[i], srcpath, dstpath)
  }

  /** Every successful move of the mover records its entry. */
  ghost predicate Recording(move: Mover) {
    forall fs, entry, srcpath, dstpath :: move(fs, entry, srcpath, dstpath).Ok? ==>
      Records(move(fs, entry, srcpath, dstpath).value.1, entry, srcpath, dstpath)
  }

  /** Both versions of `_move` record what they moved, or that the entry is missing. */
  lemma MoversRecord()
    ensures Recording(MoveEntry) && Recording(MoveEntryAsWritten)
  {
    forall fs, entry, srcpath, dstpath
      ensures MoveEntry(fs, entry, srcpath, dstpath).Ok? ==>
        Records(MoveEntry(fs, entry, srcpath, dstpath).value.1, entry, srcpath, dstpath)
      ensures MoveEntryAsWritten(fs, entry, srcpath, dstpath).Ok? ==>
        Records(MoveEntryAsWritten(fs, entry, srcpath, dstpath).value.1, entry, srcpath, dstpath)
    {
      MoveRecords(fs, entry, srcpath, dstpath);
    }
  }

  lemma RecordingAt(move: Mover, fs: FileSystem, entry: string, srcpath: string, dstpath: string)
    requires Recording(move) && move(fs, entry, srcpath, dstpath).Ok?
    ensures Records(move(fs, entry, srcpath, dstpath).value.1, entry, srcpath, dstpath)
  {
  }

  /** Recording one more entry at the end keeps every earlier record. */
  lemma RecordedAppend(ev: seq<Event>, e: Event, entries: seq<string>, entry: string, srcpath: string, dstpath: string)
    requires AllRecorded(ev, entries, srcpath, dstpath) && Records(e, entry, srcpath, dstpath)
    ensures AllRecorded(ev + [e], entries + [entry], srcpath, dstpath)
  {
    var ev', entries' := ev + [e], entries + [entry];
    forall i | 0 <= i < |ev'|
      ensures Records(ev'[i], entries'[i], srcpath, dstpath)
    {
      if i < |ev| {
        assert ev'[i] == ev[i] && entries'[i] == entries[i];
      }
    }
  }

  /** Moves that all succeed record one event per entry, in the order of the entries. */
  lemma {:induction false} OneEventPerEntry(fs: FileSystem, entries: seq<string>, srcpath: string, dstpath: string, move: Mover)
    requires Recording(move)
    requires MovesOf(fs, entries, srcpath, dstpath, move).Ok?
    ensures AllRecorded(MovesOf(fs, entries, srcpath, dstpath, move).value.events, entries, srcpath, dstpath)
    decreases |entries|
  {
    if entries != [] {
      var n := |entries| - 1;
      var init, last := entries[..n], entries[n];
      assert init + [last] == entries;
      MovesLast(fs, entries, srcpath, dstpath, move);
      var prev := MovesOf(fs, init, srcpath, dstpath, move).value;
      OneEventPerEntry(fs, init, srcpath, dstpath, move);
      RecordingAt(move, prev.fs, last, srcpath, dstpath);
      RecordedAppend(prev.events, move(prev.fs, last, srcpath, dstpath).value.1, init, last, srcpath, dstpath);
    }
  }

  /** Moves that all succeed: the last entry's move succeeds after all the others did. */
  lemma MovesLast(fs: FileSystem, entries: seq<string>, srcpath: string, dstpath: string, move: Mover)
    requires entries != [] && MovesOf(fs, entries, srcpath, dstpath, move).Ok?
    ensures var init, last := entries[..|entries| - 1], entries[|entries| - 1];
      var prev := MovesOf(fs, init, srcpath, dstpath, move);
      prev.Ok? && move(prev.value.fs, last, srcpath, dstpath).Ok?
      && MovesOf(fs, entries, srcpath, dstpath, move).value.events ==
           prev.value.events + [move(prev.value.fs, last, srcpath, dstpath).value.1]
  {
  }

  /** The two loops of `apply_removelist`: the remove list out of the root, then the restore list back. */
  function PhasesOf(fs: FileSystem, lists: Lists, root: string, holding: string, move: Mover): Result<Moves, FsError> {
    match MovesOf(fs, lists.remove, root, holding, move)
    case Err(e) => Err(e)
    case Ok(out) =>
      match MovesOf(out.fs, lists.restore, holding, root, move)
      case Err(e) => Err(e)
      case Ok(back) => Ok(Moves(back.fs, out.events + back.events))
  }

  /** Where entries are held: dstpath, or the fresh directory tmp when no dstpath is given. */
  function Holding(dstpath: string, tmp: string): string {
    if dstpath == "" then tmp else dstpath
  }

  /** The tree the loops start from: with the fresh directory tmp when no dstpath is given. */
  function Start(fs: FileSystem, dstpath: string, tmp: string): FileSystem {
    if dstpath == "" then fs[tmp := Dir] else fs
  }

  /**
   * `apply_removelist` with the given `_move`: both loops through the
   * holding directory; a fresh one is created first and deleted, with
   * everything left in it, at the end.
   */
  function ApplyOf(lines: seq<string>, root: string, dstpath: string, tmp: string, fs: FileSystem, move: Mover): Result<Moves, FsError> {
    match PhasesOf(Start(fs, dstpath, tmp), ListsOf(lines), root, Holding(dstpath, tmp), move)
    case Err(e) => Err(e)
    case Ok(m) => Ok(if dstpath == "" then Moves(WithoutTree(m.fs, tmp), m.events) else m)
  }

  /** Applies a removelist to the tree as `apply_removelist` does, with `_move` as written. */
  method ApplyRemovelist(lines: seq<string>, root: string, dstpath: string, tmp: string, fs: FileSystem) returns (r: Result<Moves, FsError>)
    ensures r == ApplyOf(lines, root, dstpath, tmp, fs, MoveEntryAsWritten)
  {
    var remove, restore := ParseList(lines);
    var auto := dstpath == "";
    var holding := dstpath;
    var start := fs;
    if auto {
      holding := tmp;
      start := fs[tmp := Dir];
    }
    var out := MoveAll(start, remove, root, holding, MoveEntryAsWritten);
    if out.Err? {
      return Err(out.error);
    }
    var back := MoveAll(out.value.fs, restore, holding, root, MoveEntryAsWritten);
    if back.Err? {
      return Err(back.error);
    }
    var after := back.value.fs;
    if auto {
      after := WithoutTree(after, tmp);
    }
    r := Ok(Moves(after, out.value.events + back.value.events));
  }

  /**
   * The events of both loops in order: one per path of the remove list,
   * moved from the root to the holding directory, then one per path of the
   * restore list, moved the other way.
   */
  predicate InOrder(ev: seq<Event>, lists: Lists, root: string, holding: string) {
    |ev| == |lists.remove| + |lists.restore|
    && (forall i :: 0 <= i < |lists.remove| ==> Records(ev[i], lists.remove[i], root, holding))
    && (forall i :: 0 <= i < |lists.restore| ==> Records(ev[|lists.remove| + i], lists.restore[i], holding, root))
  }

  /**
   * With either version of `_move`, all removals come before all restores,
   * each entry moved once, in the order of its list.
   */
  lemma RemovalsFirst(lines: seq<string>, root: string, dstpath: string, tmp: string, fs: FileSystem, move: Mover)
    requires Recording(move)
    requires ApplyOf(lines, root, dstpath, tmp, fs, move).Ok?
    ensures InOrder(ApplyOf(lines, root, dstpath, tmp, fs, move).value.events, ListsOf(lines), root, Holding(dstpath, tmp))
  {
    PhasesOrder(Start(fs, dstpath, tmp), ListsOf(lines), root, Holding(dstpath, tmp), move);
  }

  lemma PhasesOrder(fs: FileSystem, lists: Lists, root: string, holding: string, move: Mover)
    requires Recording(move)
    requires PhasesOf(fs, lists, root, holding, move).Ok?
    ensures InOrder(PhasesOf(fs, lists, root, holding, move).value.events, lists, root, holding)
  {
    var out := MovesOf(fs, lists.remove, root, holding, move);
    if out.Err? {
      assert false;
    }
    var back := MovesOf(out.value.fs, lists.restore, holding, root, move);
    if back.Err? {
      assert false;
    }
    OneEventPerEntry(fs, lists.remove, root, holding, move);
    OneEventPerEntry(out.value.fs, lists.restore, holding, root, move);
    BothInOrder(out.value.events, back.value.events, lists, root, holding);
  }

  /** The removals' records followed by the restores' records are the events of both loops in order. */
  lemma BothInOrder(out: seq<Event>, back: seq<Event>, lists: Lists, root: string, holding: string)
    requires AllRecorded(out, lists.remove, root, holding) && AllRecorded(back, lists.restore, holding, root)
    ensures InOrder(out + back, lists, root, holding)
  {
    var ev := out + back;
    forall i | 0 <= i < |lists.restore|
      ensures Records(ev[|lists.remove| + i], lists.restore[i], holding, root)
    {
      assert ev[|lists.remove| + i] == back[i];
    }
  }

  /** A holding directory the tool created itself is gone afterwards, with everything in it, whatever `_move` does. */
  lemma TemporaryRemoved(lines: seq<string>, root: string, tmp: string, fs: FileSystem, q: string, move: Mover)
    requires ApplyOf(lines, root, "", tmp, fs, move).Ok? && Under(q, tmp)
    ensures q !in ApplyOf(lines, root, "", tmp, fs, move).value.fs
  {
  }

  // Where `_move` as written puts an entry

  /**
   * A file `R/a/b` under the root R, the holding directory D with every
   * directory on the way to it but without `D/a`, and neither of R and D a
   * prefix of the other.
   */
  predicate Scene(fs: FileSystem, root: string, holding: string, a: string, b: string) {
    root != [] && root[|root| - 1] != '/' && holding != [] && holding[|holding| - 1] != '/'
    && a != [] && '/' !in a && b != [] && '/' !in b
    && !IsPrefix(root, holding) && !IsPrefix(holding, root)
    && root + "/" + a in fs && fs[root + "/" + a] == Dir
    && root + "/" + a + "/" + b in fs && fs[root + "/" + a + "/" + b] == File
    && (forall q :: q in fs ==> !Inside(q, root + "/" + a + "/" + b))
    && (forall q :: q in Chain(holding) ==> q in fs && fs[q] == Dir)
    && (forall q :: q in fs ==> !Under(q, holding + "/" + a))
  }

  lemma NormPlain(p: string)
    requires p != [] && p[|p| - 1] != '/'
    ensures Norm(p) == p
  {
  }

  /** A path longer than x whose prefix x + s is a prefix of y + t starts with x... */
  lemma PrefixOfLonger(x: string, s: string, y: string, t: string)
    requires IsPrefix(x + s, y + t) && |x| <= |y|
    ensures IsPrefix(x, y)
  {
    assert (y + t)[..|x|] == y[..|x|];
    assert (x + s)[..|x|] == x;
  }

  /** Renaming a file with nothing inside it moves just that key. */
  lemma RenameFile(fs: FileSystem, p: string, t: string)
    requires p in fs && t != p && forall q :: q in fs ==> !Inside(q, p)
    ensures Rename(fs, p, t) == (fs - {p})[t := fs[p]]
  {
    var r := Rename(fs, p, t);
    var e := (fs - {p})[t := fs[p]];
    assert Rebase(p, p, t) == t;
    forall k | k in r
      ensures k in e && r[k] == e[k]
    {
    }
    forall k | k in e
      ensures k in r
    {
      if k == t {
        assert Rebase(p, p, t) == k;
      }
    }
  }

  /** The directories on the way to `D/a` are those on the way to D, and `D/a`. */
  lemma ChainChild(d: string, a: string)
    requires d != [] && d[|d| - 1] != '/' && a != [] && '/' !in a
    ensures Chain(d + "/" + a) == Chain(d) + {d + "/" + a}
  {
    var n := d + "/" + a;
    forall q | q in Chain(n)
      ensures q in Chain(d) + {n}
    {
      var k :| 0 < k <= |n| && (k == |n| || n[k] == '/') && q == n[..k];
      if k < |d| {
        assert n[k] == d[k] && n[..k] == d[..k];
        InChain(d, k);
      } else if k == |d| {
        assert n[..k] == d && d[..k] == d;
        InChain(d, k);
      } else if k < |n| {
        assert false;
      } else {
        assert n[..k] == n;
      }
    }
    forall q | q in Chain(d)
      ensures q in Chain(n)
    {
      var k :| 0 < k <= |d| && (k == |d| || d[k] == '/') && q == d[..k];
      assert n[..k] == d[..k];
      if k < |d| {
        assert n[k] == d[k];
      } else {
        assert n[k] == '/';
      }
      InChain(n, k);
    }
    assert n[..|n|] == n;
  }

  lemma InChain(n: string, k: nat)
    requires 0 < k <= |n| && (k == |n| || n[k] == '/')
    ensures n[..k] in Chain(n)
  {
  }

  /** With every directory on the way to D in place, `mkdir D/a` adds just `D/a`. */
  lemma MkdirChild(fs: FileSystem, d: string, a: string)
    requires d != [] && d[|d| - 1] != '/' && a != [] && '/' !in a
    requires forall q :: q in Chain(d) ==> q in fs && fs[q] == Dir
    requires d + "/" + a !in fs
    ensures Mkdir(fs, d + "/" + a) == Ok(fs[d + "/" + a := Dir])
  {
    var n := d + "/" + a;
    NormPlain(n);
    ChainChild(d, a);
    var chain := Chain(n);
    assert !exists q :: q in chain && q in fs && fs[q] == File;
    assert Lookup(fs, n).None?;
    var added := map q | q in chain && q !in fs :: Dir;
    assert added == map[n := Dir];
    assert fs + added == fs[n := Dir];
  }

  /** The paths of the scene: where each one's directory and last component are. */
  lemma SceneNames(root: string, holding: string, a: string, b: string)
    requires root != [] && root[|root| - 1] != '/' && holding != [] && holding[|holding| - 1] != '/'
    requires a != [] && '/' !in a && b != [] && '/' !in b
    ensures var p := root + "/" + a + "/" + b;
      Dirname(p) == root + "/" + a && Basename(p) == b && Norm(p) == p
    ensures var p := holding + "/" + a + "/" + b;
      Dirname(p) == holding + "/" + a && Basename(p) == b && Norm(p) == p
    ensures Dirname(holding + "/" + a) == holding && Norm(holding + "/" + a) == holding + "/" + a
    ensures Norm(root + "/" + a) == root + "/" + a && Norm(holding) == holding
  {
    DirnameBasename(root + "/" + a, b);
    DirnameBasename(holding + "/" + a, b);
    DirnameBasename(holding, a);
    NormPlain(root + "/" + a + "/" + b);
    NormPlain(holding + "/" + a + "/" + b);
    NormPlain(holding + "/" + a);
    NormPlain(root + "/" + a);
    NormPlain(holding);
  }

  /** With neither tree a prefix of the other, no path of the scene lies under another. */
  lemma SceneApart(root: string, holding: string, a: string, b: string)
    requires !IsPrefix(root, holding) && !IsPrefix(holding, root)
    ensures !Under(root + "/" + a, holding + "/" + a)
    ensures !Under(root + "/" + a, holding + "/" + a + "/" + b)
    ensures !Under(holding + "/" + a, root + "/" + a + "/" + b)
    ensures !Under(holding + "/" + a + "/" + b, root + "/" + a + "/" + b)
    ensures !Under(root + "/" + a + "/" + b, holding + "/" + a + "/" + b)
  {
    var tail := "/" + a + "/" + b;
    assert root + "/" + a + "/" + b == root + tail;
    assert holding + "/" + a + "/" + b == holding + tail;
    assert holding + "/" + a == holding + ("/" + a);
    UnderApart(root, tail, holding, "/" + a);
    UnderApart(root, tail, holding, tail);
    UnderApart(holding, tail, root, tail);
    assert root + "/" + a == root + ("/" + a);
    UnderApart(holding, "/" + a, root, "/" + a);
    UnderApart(holding, tail, root, "/" + a);
  }

  /** y + t lies under x + s only if x is a prefix of y, when s is at least as long as t. */
  lemma UnderApart(x: string, s: string, y: string, t: string)
    requires !IsPrefix(x, y) && |t| <= |s|
    ensures !Under(y + t, x + s)
  {
    if Under(y + t, x + s) {
      if y + t == x + s {
        assert IsPrefix(x + s, y + t);
      } else {
        assert IsPrefix(x + s + "/", y + t);
        assert (x + s + "/")[..|x + s|] == x + s;
      }
      PrefixOfLonger(x, s, y, t);
    }
  }

  lemma InsideNested(q: string, h: string, b: string)
    requires Inside(q, h + "/" + b)
    ensures Inside(q, h)
  {
    assert (h + "/" + b + "/")[..|h| + 1] == h + "/";
    assert q[..|h| + 1] == q[..|h + "/" + b + "/"|][..|h| + 1];
  }

  /** `mkdir` of an existing directory, as the scene has them, changes nothing. */
  lemma SceneDirs(fs: FileSystem, root: string, holding: string, a: string, b: string)
    requires Scene(fs, root, holding, a, b)
    ensures Lookup(fs, holding) == Some(Dir) && Lookup(fs, root + "/" + a) == Some(Dir)
    ensures Lookup(fs, root + "/" + a + "/" + b) == Some(File)
    ensures holding + "/" + a !in fs && holding + "/" + a + "/" + b !in fs
    ensures Unrooted("/" + a + "/" + b) == a + "/" + b
    ensures MoveSource("/" + a + "/" + b, root) == root + "/" + a + "/" + b
    ensures MoveTarget("/" + a + "/" + b, holding) == holding + "/" + a
    ensures MoveSource("/" + a + "/" + b, holding) == holding + "/" + a + "/" + b
    ensures MoveTarget("/" + a + "/" + b, root) == root + "/" + a
  {
    SceneNames(root, holding, a, b);
    InChain(holding, |holding|);
    assert holding[..|holding|] == holding;
    var h := holding + "/" + a;
    assert Under(h, h);
    assert (h + "/" + b)[..|h| + 1] == h + "/";
    assert Under(h + "/" + b, h);
    assert a[0] != '/' && a[|a| - 1] != '/';
    NestedEntry(a, b, root, holding);
    NestedEntry(a, b, holding, root);
  }

  /** What a path without trailing separators names is its own entry of the tree. */
  lemma LookupPlain(fs: FileSystem, p: string)
    requires Norm(p) == p
    ensures Lookup(fs, p) == if p in fs then Some(fs[p]) else None
  {
  }

  /** `shutil.move` onto a path that does not exist, in an existing directory, renames. */
  lemma MoveOnto(fs: FileSystem, src: string, dst: string)
    requires Norm(src) == src && Norm(dst) == dst && dst !in fs && dst != src && !Under(dst, src)
    requires Dirname(dst) != "" && Lookup(fs, Dirname(dst)) == Some(Dir)
    ensures ShutilMove(fs, src, dst) == Ok(Rename(fs, src, dst))
  {
    LookupPlain(fs, dst);
  }

  /** `shutil.move` into a directory renames to the source's name inside it. */
  lemma MoveInto(fs: FileSystem, src: string, dst: string, target: string)
    requires Norm(src) == src && Lookup(fs, dst) == Some(Dir) && Norm(dst) != src
    requires target == PathJoin(dst, Basename(src)) && Norm(target) == target && target !in fs
    requires target != src && !Under(target, src)
    requires Dirname(target) != "" && Lookup(fs, Dirname(target)) == Some(Dir)
    ensures ShutilMove(fs, src, dst) == Ok(Rename(fs, src, target))
  {
    LookupPlain(fs, target);
  }

  /** An entry whose source exists is moved after its directory is prepared. */
  lemma MoveFound(fs: FileSystem, entry: string, srcpath: string, dstpath: string, made: FileSystem, moved: FileSystem)
    requires Lookup(fs, MoveSource(entry, srcpath)).Some?
    requires Mkdir(fs, MoveTarget(entry, dstpath)) == Ok(made)
    requires ShutilMove(made, MoveSource(entry, srcpath), MoveTarget(entry, dstpath)) == Ok(moved)
    ensures MoveEntry(fs, entry, srcpath, dstpath) == Ok((moved, Moved(MoveSource(entry, srcpath), MoveTarget(entry, dstpath))))
  {
  }

  /** The same for `_move` as written, which prepares only the directory's parent. */
  lemma MoveFoundAsWritten(fs: FileSystem, entry: string, srcpath: string, dstpath: string, made: FileSystem, moved: FileSystem)
    requires Lookup(fs, MoveSource(entry, srcpath)).Some?
    requires Mkdir(fs, Dirname(MoveTarget(entry, dstpath))) == Ok(made)
    requires ShutilMove(made, MoveSource(entry, srcpath), MoveTarget(entry, dstpath)) == Ok(moved)
    ensures MoveEntryAsWritten(fs, entry, srcpath, dstpath) == Ok((moved, Moved(MoveSource(entry, srcpath), MoveTarget(entry, dstpath))))
  {
  }

  /**
   * As written, moving the entry `/a/b` out renames the file to `D/a`
   * itself, so moving `!/a/b` back finds nothing at `D/a/b` and only warns:
   * the file is no longer in the root.
   */
  lemma AsWrittenLosesRestore(fs: FileSystem, root: string, holding: string, a: string, b: string)
    requires Scene(fs, root, holding, a, b)
    ensures var p := root + "/" + a + "/" + b;
      var entry := "/" + a + "/" + b;
      var out := MoveEntryAsWritten(fs, entry, root, holding);
      out == Ok(((fs - {p})[holding + "/" + a := File], Moved(p, holding + "/" + a)))
      && MoveEntryAsWritten(out.value.0, entry, holding, root) == Ok((out.value.0, Missing(a + "/" + b)))
      && Lookup(out.value.0, p).None?
  {
    var p := root + "/" + a + "/" + b;
    var h := holding + "/" + a;
    var entry := "/" + a + "/" + b;
    SceneNames(root, holding, a, b);
    SceneApart(root, holding, a, b);
    SceneDirs(fs, root, holding, a, b);
    MoveOnto(fs, p, h);
    RenameFile(fs, p, h);
    var fs1 := (fs - {p})[h := File];
    MoveFoundAsWritten(fs, entry, root, holding, fs, fs1);
    LookupPlain(fs1, h + "/" + b);
    LookupPlain(fs1, p);
  }

  /** The corrected move puts the file at `D/a/b`, inside the new directory `D/a`. */
  lemma MoveOut(fs: FileSystem, root: string, holding: string, a: string, b: string)
    requires Scene(fs, root, holding, a, b)
    ensures var p := root + "/" + a + "/" + b;
      var h := holding + "/" + a;
      MoveEntry(fs, "/" + a + "/" + b, root, holding) == Ok(((fs[h := Dir] - {p})[h + "/" + b := File], Moved(p, h)))
  {
    var p := root + "/" + a + "/" + b;
    var h := holding + "/" + a;
    var hb := h + "/" + b;
    SceneNames(root, holding, a, b);
    SceneApart(root, holding, a, b);
    SceneDirs(fs, root, holding, a, b);
    MkdirChild(fs, holding, a);
    var fs1 := fs[h := Dir];
    LookupPlain(fs1, h);
    MoveInto(fs1, p, h, hb);
    forall q | q in fs1
      ensures !Inside(q, p)
    {
      if q == h {
        assert !Under(h, p);
      }
    }
    RenameFile(fs1, p, hb);
    MoveFound(fs, "/" + a + "/" + b, root, holding, fs1, (fs1 - {p})[hb := File]);
  }

  /** Moving the entry back from `D/a/b` brings the file home, to `R/a/b`. */
  lemma MoveBack(fs: FileSystem, root: string, holding: string, a: string, b: string)
    requires Scene(fs, root, holding, a, b)
    ensures var p := root + "/" + a + "/" + b;
      var h := holding + "/" + a;
      var held := (fs[h := Dir] - {p})[h + "/" + b := File];
      MoveEntry(held, "/" + a + "/" + b, holding, root) == Ok((fs[h := Dir], Moved(h + "/" + b, root + "/" + a)))
  {
    var p := root + "/" + a + "/" + b;
    var h := holding + "/" + a;
    var hb := h + "/" + b;
    var ra := root + "/" + a;
    SceneNames(root, holding, a, b);
    SceneApart(root, holding, a, b);
    SceneDirs(fs, root, holding, a, b);
    var held := (fs[h := Dir] - {p})[hb := File];
    LookupPlain(held, hb);
    LookupPlain(held, ra);
    assert Mkdir(held, ra) == Ok(held);
    MoveInto(held, hb, ra, p);
    NothingInsideHeld(fs, h, b, p);
    RenameFile(held, hb, p);
    HeldBack(fs, p, h, hb);
    MoveFound(held, "/" + a + "/" + b, holding, root, held, fs[h := Dir]);
  }

  lemma NothingInsideHeld(fs: FileSystem, h: string, b: string, p: string)
    requires forall q :: q in fs ==> !Under(q, h)
    ensures forall q :: q in (fs[h := Dir] - {p})[h + "/" + b := File] ==> !Inside(q, h + "/" + b)
  {
    forall q | q in (fs[h := Dir] - {p})[h + "/" + b := File] && Inside(q, h + "/" + b)
      ensures false
    {
      InsideNested(q, h, b);
    }
  }

  lemma HeldBack(fs: FileSystem, p: string, h: string, hb: string)
    requires p in fs && fs[p] == File && hb !in fs && h != p && hb != p && hb != h
    ensures ((fs[h := Dir] - {p})[hb := File] - {hb})[p := File] == fs[h := Dir]
  {
  }

  /**
   * With the move corrected, removing `/a/b` and then restoring it gives
   * the root back as it was; the holding directory keeps only the new,
   * empty `D/a`.
   */
  lemma RestoreUndoesRemove(fs: FileSystem, root: string, holding: string, a: string, b: string)
    requires Scene(fs, root, holding, a, b)
    ensures var entry := "/" + a + "/" + b;
      var out := MoveEntry(fs, entry, root, holding);
      out.Ok? && MoveEntry(out.value.0, entry, holding, root) == Ok((fs[holding + "/" + a := Dir], Moved(holding + "/" + a + "/" + b, root + "/" + a)))
  {
    MoveOut(fs, root, holding, a, b);
    MoveBack(fs, root, holding, a, b);
  }

  // Removing and restoring one file through the whole of apply_removelist

  /** The list that moves the entry out and then brings it back. */
  function RemoveThenRestore(entry: string): seq<string> {
    [entry, "!" + entry]
  }

  /** The list `/a/b`, `!/a/b` removes and restores that one path. */
  lemma RemoveThenRestoreLists(a: string, b: string)
    requires a != [] && '#' !in a && b != [] && '#' !in b && !IsSpace(b[|b| - 1], Bytes)
    ensures var entry := "/" + a + "/" + b;
      ListsOf(RemoveThenRestore(entry)) == Lists([entry], [entry])
  {
    var entry := "/" + a + "/" + b;
    var lines := RemoveThenRestore(entry);
    PlainDeclaration(entry);
    PlainDeclaration("!" + entry);
    assert lines[..1] == [entry] && lines[..1][..0] == [] && lines[..2] == lines;
    ListsStep(lines, 0);
    ListsStep(lines, 1);
    assert ("!" + entry)[1..] == entry;
  }

  /** A line without a comment or surrounding whitespace declares itself. */
  lemma PlainDeclaration(s: string)
    requires s != [] && '#' !in s && !IsSpace(s[0], Bytes) && !IsSpace(s[|s| - 1], Bytes)
    ensures PlanText.Declaration(s, Bytes) == s
  {
    StripTrimmed(s, Bytes);
  }

  /** A path below the root is not in a holding directory apart from it. */
  lemma OutsideHolding(root: string, tail: string, holding: string)
    requires !IsPrefix(root, holding) && !IsPrefix(holding, root)
    ensures !Under(root + tail, holding)
  {
    var q := root + tail;
    assert (holding + "/")[..|holding|] == holding;
    if |holding| <= |root| {
      assert q[..|holding|] == root[..|holding|];
    } else if |holding| <= |q| {
      assert q[..|holding|][..|root|] == root;
    }
  }

  /** Both loops, for a list that moves one entry out and back, when both moves succeed. */
  lemma PhasesOne(fs: FileSystem, entry: string, root: string, holding: string, move: Mover)
    ensures var out := move(fs, entry, root, holding);
      out.Ok? && move(out.value.0, entry, holding, root).Ok? ==>
        var back := move(out.value.0, entry, holding, root).value;
        PhasesOf(fs, Lists([entry], [entry]), root, holding, move) == Ok(Moves(back.0, [out.value.1, back.1]))
  {
    var out := move(fs, entry, root, holding);
    MovesOne(fs, entry, root, holding, move);
    if out.Ok? {
      var back := move(out.value.0, entry, holding, root);
      MovesOne(out.value.0, entry, holding, root, move);
      if back.Ok? {
        assert [out.value.1] + [back.value.1] == [out.value.1, back.value.1];
      }
    }
  }

  /**
   * As written, applying the list `/a/b`, `!/a/b` loses the file: the file
   * is moved out, the restore finds nothing to bring back and only warns,
   * and `R/a/b` is gone from the tree.
   */
  lemma ApplyAsWrittenLosesFile(fs: FileSystem, root: string, dstpath: string, tmp: string, a: string, b: string)
    requires Scene(Start(fs, dstpath, tmp), root, Holding(dstpath, tmp), a, b)
    requires '#' !in a && '#' !in b && !IsSpace(b[|b| - 1], Bytes)
    ensures var r := ApplyOf(RemoveThenRestore("/" + a + "/" + b), root, dstpath, tmp, fs, MoveEntryAsWritten);
      r.Ok? && r.value.events == [Moved(root + "/" + a + "/" + b, Holding(dstpath, tmp) + "/" + a), Missing(a + "/" + b)]
      && root + "/" + a + "/" + b !in r.value.fs
  {
    var entry := "/" + a + "/" + b;
    var start, holding := Start(fs, dstpath, tmp), Holding(dstpath, tmp);
    RemoveThenRestoreLists(a, b);
    AsWrittenLosesRestore(start, root, holding, a, b);
    PhasesOne(start, entry, root, holding, MoveEntryAsWritten);
    ApplyFromPhases(RemoveThenRestore(entry), root, dstpath, tmp, fs, MoveEntryAsWritten, root + "/" + a + "/" + b);
  }

  /**
   * With the move corrected, applying the list `/a/b`, `!/a/b` moves the
   * file out and back: `R/a/b` is a file again at the end.
   */
  lemma ApplyRestoresFile(fs: FileSystem, root: string, dstpath: string, tmp: string, a: string, b: string)
    requires Scene(Start(fs, dstpath, tmp), root, Holding(dstpath, tmp), a, b)
    requires '#' !in a && '#' !in b && !IsSpace(b[|b| - 1], Bytes)
    ensures var h := Holding(dstpath, tmp) + "/" + a;
      var r := ApplyOf(RemoveThenRestore("/" + a + "/" + b), root, dstpath, tmp, fs, MoveEntry);
      r.Ok? && r.value.events == [Moved(root + "/" + a + "/" + b, h), Moved(h + "/" + b, root + "/" + a)]
      && root + "/" + a + "/" + b in r.value.fs && r.value.fs[root + "/" + a + "/" + b] == File
  {
    var entry, p := "/" + a + "/" + b, root + "/" + a + "/" + b;
    var start, holding := Start(fs, dstpath, tmp), Holding(dstpath, tmp);
    RemoveThenRestoreLists(a, b);
    PhasesRestore(start, root, holding, a, b);
    ApplyFromPhases(RemoveThenRestore(entry), root, dstpath, tmp, fs, MoveEntry, p);
  }

  /** The whole apply is both loops, then the removal of a fresh holding directory. */
  lemma ApplyFromPhases(lines: seq<string>, root: string, dstpath: string, tmp: string, fs: FileSystem, move: Mover, p: string)
    requires PhasesOf(Start(fs, dstpath, tmp), ListsOf(lines), root, Holding(dstpath, tmp), move).Ok?
    ensures var phases := PhasesOf(Start(fs, dstpath, tmp), ListsOf(lines), root, Holding(dstpath, tmp), move).value;
      var r := ApplyOf(lines, root, dstpath, tmp, fs, move);
      r.Ok? && r.value.events == phases.events
      && (p in phases.fs && (dstpath != "" || !Under(p, tmp)) ==> p in r.value.fs && r.value.fs[p] == phases.fs[p])
      && (p !in phases.fs ==> p !in r.value.fs)
  {
  }

  /** Both loops of the corrected move, for the entry `/a/b` out and back. */
  lemma PhasesRestore(fs: FileSystem, root: string, holding: string, a: string, b: string)
    requires Scene(fs, root, holding, a, b)
    ensures var entry, h := "/" + a + "/" + b, holding + "/" + a;
      PhasesOf(fs, Lists([entry], [entry]), root, holding, MoveEntry) ==
        Ok(Moves(fs[h := Dir], [Moved(root + "/" + a + "/" + b, h), Moved(h + "/" + b, root + "/" + a)]))
    ensures var p := root + "/" + a + "/" + b;
      p in fs[holding + "/" + a := Dir] && fs[holding + "/" + a := Dir][p] == File && !Under(p, holding)
  {
    var entry := "/" + a + "/" + b;
    assert root + "/" + a + "/" + b == root + entry;
    OutsideHolding(root, entry, holding);
    MoveOut(fs, root, holding, a, b);
    MoveBack(fs, root, holding, a, b);
    PhasesOne(fs, entry, root, holding, MoveEntry);
  }
}
