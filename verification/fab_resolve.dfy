/**
 * fablib/resolve.py: the installed packages of a dpkg status file, the
 * origins `resolve_plan` records for each source of the plan, and the
 * annotated spec it writes.
 */
module FabResolve {
  import opened Wrappers
  import opened Text
  import FabPlan
  import FabDependency

  // ---------------------------------------------------------------------
  // iter_packages

  /** The exact Status of an installed package. */
  const INSTALLED := "install ok installed"

  /**
   * What one finished paragraph yields: its Package when its Status is
   * exactly installed, nothing otherwise; a missing Status, or a missing
   * Package on an installed paragraph, raises KeyError (the field's name).
   */
  function Installed(fields: map<string, string>): (r: Result<seq<string>, string>)
    ensures r.Err? <==> "Status" !in fields || (fields["Status"] == INSTALLED && "Package" !in fields)
    ensures r.Ok? ==> r.value == if fields["Status"] == INSTALLED then [fields["Package"]] else []
  {
    if "Status" !in fields then Err("Status")
    else if fields["Status"] != INSTALLED then Ok([])
    else if "Package" !in fields then Err("Package")
    else Ok([fields["Package"]])
  }

  /** The packages yielded so far (or the KeyError raised), and the lines of the open paragraph. */
  datatype Scan = Scan(out: Result<seq<string>, string>, control: seq<string>)

  /**
   * One line of the status file: a blank line ends the open paragraph, which
   * `deb822` reads into its fields; any other line joins it. Once KeyError
   * is raised nothing more is read.
   */
  function Feed(s: Scan, line: string, deb822: seq<string> -> map<string, string>): Scan {
    if s.out.Err? then s
    else if Strip(line, Unicode) == [] then
      match Installed(deb822(s.control))
      case Err(field) => Scan(Err(field), [])
      case Ok(found) => Scan(Ok(s.out.value + found), [])
    else Scan(s.out, s.control + [line])
  }

  /** The scan after the given lines of the status file. */
  function ScanOf(lines: seq<string>, deb822: seq<string> -> map<string, string>): Scan
    decreases |lines|
  {
    if lines == [] then Scan(Ok([]), [])
    else Feed(ScanOf(lines[..|lines| - 1], deb822), lines[|lines| - 1], deb822)
  }

  lemma ScanStep(lines: seq<string>, i: nat, deb822: seq<string> -> map<string, string>)
    requires i < |lines|
    ensures ScanOf(lines[..i + 1], deb822) == Feed(ScanOf(lines[..i], deb822), lines[i], deb822)
  {
    assert lines[..i + 1][..i] == lines[..i];
  }

  /** Once a prefix of the lines raises, so do all the lines, with the same field. */
  lemma {:induction false} ScanErrorPersists(lines: seq<string>, i: nat, deb822: seq<string> -> map<string, string>)
    requires i <= |lines| && ScanOf(lines[..i], deb822).out.Err?
    ensures ScanOf(lines, deb822).out == ScanOf(lines[..i], deb822).out
    decreases |lines| - i
  {
    if i < |lines| {
      ScanStep(lines, i, deb822);
      ScanErrorPersists(lines, i + 1, deb822);
    } else {
      assert lines[..i] == lines;
    }
  }

  /**
   * `iter_packages`, over the lines of the status file and with Deb822
   * parsing given as a function: the installed packages in file order.
   */
  method IterPackages(lines: seq<string>, deb822: seq<string> -> map<string, string>)
    returns (r: Result<seq<string>, string>)
    ensures r == ScanOf(lines, deb822).out
  {
    var control: seq<string> := [];
    var packages: seq<string> := [];
    var i := 0;
    while i < |lines|
      invariant 0 <= i <= |lines|
      invariant ScanOf(lines[..i], deb822) == Scan(Ok(packages), control)
    {
      ScanStep(lines, i, deb822);
      var line := lines[i];
      if Strip(line, Unicode) == [] {
        var found := Installed(deb822(control));
        if found.Err? {
          ScanErrorPersists(lines, i + 1, deb822);
          return Err(found.error);
        }
        packages := packages + found.value;
        control := [];
      } else {
        control := control + [line];
      }
      i := i + 1;
    }
    assert lines[..|lines|] == lines;
    return Ok(packages);
  }

  /** The paragraphs the lines finish, in order: each is the run of non-blank lines a blank line ends. */
  function Paragraphs(lines: seq<string>): seq<seq<string>>
    decreases |lines|
  {
    if lines == [] then []
    else if Strip(lines[|lines| - 1], Unicode) == [] then Paragraphs(lines[..|lines| - 1]) + [Open(lines[..|lines| - 1])]
    else Paragraphs(lines[..|lines| - 1])
  }

  /** The lines after the last blank line: a paragraph no blank line has finished. */
  function Open(lines: seq<string>): (open: seq<string>)
    ensures forall i :: 0 <= i < |open| ==> Strip(open[i], Unicode) != []
    decreases |lines|
  {
    if lines == [] then []
    else if Strip(lines[|lines| - 1], Unicode) == [] then []
    else Open(lines[..|lines| - 1]) + [lines[|lines| - 1]]
  }

  /** The packages of a sequence of paragraphs: the first KeyError, or each installed one's name. */
  function Yield(paragraphs: seq<seq<string>>, deb822: seq<string> -> map<string, string>): Result<seq<string>, string>
    decreases |paragraphs|
  {
    if paragraphs == [] then Ok([])
    else
      match Yield(paragraphs[..|paragraphs| - 1], deb822)
      case Err(field) => Err(field)
      case Ok(found) =>
        match Installed(deb822(paragraphs[|paragraphs| - 1]))
        case Err(field) => Err(field)
        case Ok(more) => Ok(found + more)
  }

  /**
   * The scan reads the file paragraph by paragraph: its result is that of
   * the finished paragraphs, and the open one is what it holds back.
   */
  lemma {:induction false} ScanByParagraph(lines: seq<string>, deb822: seq<string> -> map<string, string>)
    ensures ScanOf(lines, deb822).out == Yield(Paragraphs(lines), deb822)
    ensures ScanOf(lines, deb822).out.Ok? ==> ScanOf(lines, deb822).control == Open(lines)
    decreases |lines|
  {
    if lines != [] {
      ScanByParagraph(lines[..|lines| - 1], deb822);
      var ps := Paragraphs(lines[..|lines| - 1]);
      if Strip(lines[|lines| - 1], Unicode) == [] {
        assert (ps + [Open(lines[..|lines| - 1])])[..|ps|] == ps;
      }
    }
  }

  /** A paragraph that no blank line finishes is never examined. */
  lemma UnfinishedIgnored(lines: seq<string>, line: string, deb822: seq<string> -> map<string, string>)
    requires Strip(line, Unicode) != []
    ensures ScanOf(lines + [line], deb822).out == ScanOf(lines, deb822).out
  {
    assert (lines + [line])[..|lines|] == lines;
  }

  /** A yielded name is the Package of a finished paragraph whose Status is exactly installed, and conversely. */
  lemma {:induction false} YieldMembers(paragraphs: seq<seq<string>>, deb822: seq<string> -> map<string, string>, p: string)
    requires Yield(paragraphs, deb822).Ok?
    ensures p in Yield(paragraphs, deb822).value <==>
      exists j :: 0 <= j < |paragraphs| && Installed(deb822(paragraphs[j])) == Ok([p])
    decreases |paragraphs|
  {
    if paragraphs != [] {
      var prefix := paragraphs[..|paragraphs| - 1];
      var last := |paragraphs| - 1;
      YieldMembers(prefix, deb822, p);
      assert Yield(prefix, deb822).Ok?;
      assert forall j :: 0 <= j < last ==> paragraphs[j] == prefix[j];
      var fields := deb822(paragraphs[last]);
      if p in Yield(paragraphs, deb822).value && p !in Yield(prefix, deb822).value {
        assert Installed(fields) == Ok([p]);
      }
    }
  }

  // ---------------------------------------------------------------------
  // The origins resolve_plan records

  /** `packageorigins.add(name, origin)`, as a function of the recorded origins. */
  function Recorded(origins: map<string, seq<string>>, name: string, origin: string): map<string, seq<string>> {
    origins[FabPlan.OriginKey(name) := FabPlan.OriginsOf(origins, FabPlan.OriginKey(name)) + [origin]]
  }

  /** One `add` per name, in order, all with the same origin. */
  function RecordedAll(origins: map<string, seq<string>>, names: seq<string>, origin: string): map<string, seq<string>>
    decreases |names|
  {
    if names == [] then origins
    else Recorded(RecordedAll(origins, names[..|names| - 1], origin), names[|names| - 1], origin)
  }

  /** Adds the same origin for each of the names in turn. */
  method AddEach(o: FabPlan.PackageOrigins, names: seq<string>, origin: string)
    requires o.Valid()
    modifies o
    ensures o.Valid()
    ensures o.origins == RecordedAll(old(o.origins), names, origin)
  {
    var i := 0;
    while i < |names|
      invariant 0 <= i <= |names|
      invariant o.Valid()
      invariant o.origins == RecordedAll(old(o.origins), names[..i], origin)
    {
      assert names[..i + 1][..i] == names[..i];
      o.Add(names[i], origin);
      i := i + 1;
    }
    assert names[..|names|] == names;
  }

  /** A source of the plan on the command line. */
  datatype PlanSource =
    | PlanFile(path: string, packages: seq<string>)  // `-` or an existing file: its packages, in set order
    | Token(path: string)                             // anything else: a package given as is

  /** The names a source adds to the plan, in the order their origins are recorded. */
  function SourceNames(source: PlanSource): seq<string> {
    match source
    case PlanFile(_, packages) => packages
    case Token(path) => [path]
  }

  /** The origin recorded for them: the plan file's path, or `_` for a token. */
  function SourceOrigin(source: PlanSource): string {
    match source
    case PlanFile(path, _) => path
    case Token(_) => "_"
  }

  /** The plan entries the sources add. */
  function SourcesPlan(sources: seq<PlanSource>): set<string>
    decreases |sources|
  {
    if sources == [] then {}
    else
      var names := SourceNames(sources[|sources| - 1]);
      SourcesPlan(sources[..|sources| - 1]) + set p | p in names
  }

  /** The origins after the sources, one after the other. */
  function SourcesRecorded(origins: map<string, seq<string>>, sources: seq<PlanSource>): map<string, seq<string>>
    decreases |sources|
  {
    if sources == [] then origins
    else
      var source := sources[|sources| - 1];
      RecordedAll(SourcesRecorded(origins, sources[..|sources| - 1]), SourceNames(source), SourceOrigin(source))
  }

  /** The bootstrap packages, when a bootstrap is given, in set order. */
  function BootstrapList(bootstrap: Option<seq<string>>): seq<string> {
    if bootstrap.Some? then bootstrap.value else []
  }

  /** One source: its names join the plan, each recorded with the source's origin. */
  method AddSource(plan: FabPlan.Plan, source: PlanSource)
    requires plan.Valid()
    modifies plan, plan.packageorigins
    ensures plan.Valid()
    ensures plan.plan == old(plan.plan) + set p | p in SourceNames(source)
    ensures plan.packageorigins.origins == RecordedAll(old(plan.packageorigins.origins), SourceNames(source), SourceOrigin(source))
  {
    match source {
      case PlanFile(path, packages) =>
        plan.UnionWith(set p | p in packages);
        AddEach(plan.packageorigins, packages, path);
      case Token(path) =>
        plan.Add(path);
        plan.packageorigins.Add(path, "_");
        assert [path][..0] == [];
    }
  }

  /**
   * The part of `resolve_plan` that assembles the plan: the bootstrap's
   * installed packages with origin `bootstrap`, then each source in order.
   */
  method RecordPlanSources(plan: FabPlan.Plan, bootstrap: Option<seq<string>>, sources: seq<PlanSource>)
    requires plan.Valid()
    modifies plan, plan.packageorigins
    ensures plan.Valid()
    ensures plan.plan == old(plan.plan) + (set p | p in BootstrapList(bootstrap)) + SourcesPlan(sources)
    ensures plan.packageorigins.origins
      == SourcesRecorded(RecordedAll(old(plan.packageorigins.origins), BootstrapList(bootstrap), "bootstrap"), sources)
  {
    if bootstrap.Some? {
      AddSource(plan, PlanFile("bootstrap", bootstrap.value));
    }
    AddSources(plan, sources);
  }

  /** The loop over the sources of the plan, each added in turn. */
  method AddSources(plan: FabPlan.Plan, sources: seq<PlanSource>)
    requires plan.Valid()
    modifies plan, plan.packageorigins
    ensures plan.Valid()
    ensures plan.plan == old(plan.plan) + SourcesPlan(sources)
    ensures plan.packageorigins.origins == SourcesRecorded(old(plan.packageorigins.origins), sources)
  {
    ghost var plan0 := plan.plan;
    ghost var origins0 := plan.packageorigins.origins;
    var i := 0;
    while i < |sources|
      invariant 0 <= i <= |sources|
      invariant plan.Valid()
      invariant plan.plan == plan0 + SourcesPlan(sources[..i])
      invariant plan.packageorigins.origins == SourcesRecorded(origins0, sources[..i])
    {
      assert sources[..i + 1][..i] == sources[..i];
      AddSource(plan, sources[i]);
      i := i + 1;
    }
    assert sources[..|sources|] == sources;
  }

  /** b starts with a. */
  predicate Extends<T(==)>(a: seq<T>, b: seq<T>) {
    |a| <= |b| && b[..|a|] == a
  }

  /** Recording only appends: what a key had before is a prefix of what it has after. */
  lemma {:induction false} RecordedAllKeeps(origins: map<string, seq<string>>, names: seq<string>, origin: string, key: string)
    ensures Extends(FabPlan.OriginsOf(origins, key), FabPlan.OriginsOf(RecordedAll(origins, names, origin), key))
    decreases |names|
  {
    if names != [] {
      RecordedAllKeeps(origins, names[..|names| - 1], origin, key);
    }
  }

  /** Each recorded name's key lists the origin. */
  lemma {:induction false} RecordedAllHas(origins: map<string, seq<string>>, names: seq<string>, origin: string, j: nat)
    requires j < |names|
    ensures origin in FabPlan.OriginsOf(RecordedAll(origins, names, origin), FabPlan.OriginKey(names[j]))
    decreases |names|
  {
    var prefix := names[..|names| - 1];
    var key := FabPlan.OriginKey(names[j]);
    if j < |names| - 1 {
      assert prefix[j] == names[j];
      RecordedAllHas(origins, prefix, origin, j);
      var mid := RecordedAll(origins, prefix, origin);
      var list := FabPlan.OriginsOf(mid, key);
      assert Extends(list, FabPlan.OriginsOf(Recorded(mid, names[|names| - 1], origin), key));
    }
  }

  lemma {:induction false} SourcesKeep(origins: map<string, seq<string>>, sources: seq<PlanSource>, key: string)
    ensures Extends(FabPlan.OriginsOf(origins, key), FabPlan.OriginsOf(SourcesRecorded(origins, sources), key))
    decreases |sources|
  {
    if sources != [] {
      var source := sources[|sources| - 1];
      SourcesKeep(origins, sources[..|sources| - 1], key);
      RecordedAllKeeps(SourcesRecorded(origins, sources[..|sources| - 1]), SourceNames(source), SourceOrigin(source), key);
    }
  }

  /**
   * After the sources, each name of a source lists that source's origin:
   * a plan file's path for its packages, `_` for a token.
   */
  lemma {:induction false} SourceRecorded(origins: map<string, seq<string>>, sources: seq<PlanSource>, i: nat, j: nat)
    requires i < |sources| && j < |SourceNames(sources[i])|
    ensures SourceOrigin(sources[i])
      in FabPlan.OriginsOf(SourcesRecorded(origins, sources), FabPlan.OriginKey(SourceNames(sources[i])[j]))
    decreases |sources|
  {
    var prefix := sources[..|sources| - 1];
    var last := sources[|sources| - 1];
    var key := FabPlan.OriginKey(SourceNames(sources[i])[j]);
    if i < |sources| - 1 {
      assert prefix[i] == sources[i];
      SourceRecorded(origins, prefix, i, j);
      RecordedAllKeeps(SourcesRecorded(origins, prefix), SourceNames(last), SourceOrigin(last), key);
    } else {
      RecordedAllHas(SourcesRecorded(origins, prefix), SourceNames(last), SourceOrigin(last), j);
    }
  }

  /** Each bootstrap package lists `bootstrap` among its origins at the end. */
  lemma BootstrapOrigin(origins: map<string, seq<string>>, bootstrap: seq<string>, sources: seq<PlanSource>, j: nat)
    requires j < |bootstrap|
    ensures "bootstrap" in FabPlan.OriginsOf(SourcesRecorded(RecordedAll(origins, bootstrap, "bootstrap"), sources),
                                             FabPlan.OriginKey(bootstrap[j]))
  {
    RecordedAllHas(origins, bootstrap, "bootstrap", j);
    SourcesKeep(RecordedAll(origins, bootstrap, "bootstrap"), sources, FabPlan.OriginKey(bootstrap[j]));
  }

  // ---------------------------------------------------------------------
  // annotate_spec

  /** `max(len(s) + 1 for s in spec)` */
  function ColumnLen(spec: seq<string>): (n: nat)
    requires spec != []
    ensures forall i :: 0 <= i < |spec| ==> |spec[i]| + 1 <= n
    ensures exists i :: 0 <= i < |spec| && n == |spec[i]| + 1
    decreases |spec|
  {
    var last := |spec[|spec| - 1]| + 1;
    if |spec| == 1 then last
    else
      var rest := ColumnLen(spec[..|spec| - 1]);
      assert forall i :: 0 <= i < |spec| - 1 ==> spec[i] == spec[..|spec| - 1][i];
      if rest >= last then rest else last
  }

  /** One annotated line: the entry padded to the column, ` # `, and its origins joined by spaces. */
  function AnnotatedLine(entry: string, width: nat, origins: seq<string>): string {
    LJust(entry, width) + " # " + Join(origins, " ")
  }

  /**
   * The annotated line of each entry, looked up by the name before its `=`;
   * the first entry whose name has no origins raises KeyError (the name).
   */
  function AnnotatedLines(spec: seq<string>, width: nat, origins: map<string, seq<string>>)
    : (r: Result<seq<string>, string>)
    ensures r.Ok? ==> |r.value| == |spec|
    ensures r.Ok? ==> forall i :: 0 <= i < |spec| ==>
      Before(spec[i], '=') in origins && r.value[i] == AnnotatedLine(spec[i], width, origins[Before(spec[i], '=')])
    ensures r.Err? ==>
      exists i :: 0 <= i < |spec| && r.error == Before(spec[i], '=') && r.error !in origins
        && forall k :: 0 <= k < i ==> Before(spec[k], '=') in origins
    decreases |spec|
  {
    if spec == [] then Ok([])
    else
      var prefix := spec[..|spec| - 1];
      var entry := spec[|spec| - 1];
      assert forall i :: 0 <= i < |spec| - 1 ==> spec[i] == prefix[i];
      match AnnotatedLines(prefix, width, origins)
      case Err(name) => Err(name)
      case Ok(lines) =>
        var name := Before(entry, '=');
        if name !in origins then Err(name)
        else Ok(lines + [AnnotatedLine(entry, width, origins[name])])
  }

  /**
   * `annotate_spec` over the spec's entries and the recorded origins: empty
   * for an empty spec, otherwise one line per entry joined by newlines.
   */
  function AnnotateSpec(spec: seq<string>, origins: map<string, seq<string>>): (r: Result<string, string>)
    ensures spec == [] ==> r == Ok("")
    ensures r.Err? <==> exists i :: 0 <= i < |spec| && Before(spec[i], '=') !in origins
  {
    if spec == [] then Ok("")
    else
      match AnnotatedLines(spec, ColumnLen(spec), origins)
      case Err(name) => Err(name)
      case Ok(lines) => Ok(Join(lines, "\n"))
  }

  /**
   * Every line of an annotated spec is its entry, padded past the longest
   * entry, then ` # ` at the same column, then that name's origins; there is
   * one line per entry, in order.
   */
  lemma AnnotatedLayout(spec: seq<string>, origins: map<string, seq<string>>)
    requires spec != [] && AnnotateSpec(spec, origins).Ok?
    requires forall i :: 0 <= i < |spec| ==> '\n' !in spec[i]
    requires forall n, j :: n in origins && 0 <= j < |origins[n]| ==> '\n' !in origins[n][j]
    ensures var lines := Split(AnnotateSpec(spec, origins).value, '\n');
      |lines| == |spec|
      && forall i :: 0 <= i < |spec| ==>
        LineLayout(spec[i], ColumnLen(spec), origins[Before(spec[i], '=')], lines[i])
  {
    var width := ColumnLen(spec);
    var lines := AnnotatedLines(spec, width, origins).value;
    forall i | 0 <= i < |lines|
      ensures '\n' !in lines[i]
      ensures LineLayout(spec[i], width, origins[Before(spec[i], '=')], lines[i])
    {
      AnnotatedLineLayout(spec[i], width, origins[Before(spec[i], '=')]);
    }
    SplitJoin(lines, '\n');
  }

  /** A line starts with its entry, has ` # ` at the column, then the origins joined by spaces. */
  predicate LineLayout(entry: string, width: nat, os: seq<string>, line: string) {
    IsPrefix(entry, line) && |line| >= width + 3 && line[width..width + 3] == " # "
    && line[width + 3..] == Join(os, " ")
  }

  lemma AnnotatedLineLayout(entry: string, width: nat, os: seq<string>)
    requires |entry| < width && '\n' !in entry
    requires forall j :: 0 <= j < |os| ==> '\n' !in os[j]
    ensures '\n' !in AnnotatedLine(entry, width, os)
    ensures LineLayout(entry, width, os, AnnotatedLine(entry, width, os))
  {
    var line := AnnotatedLine(entry, width, os);
    var padded := LJust(entry, width);
    JoinFree(os, " ", '\n');
    assert '\n' !in padded by {
      forall k | 0 <= k < |padded| ensures padded[k] != '\n' {
        if k < |entry| {
          assert padded[k] == entry[k];
        }
      }
    }
    assert |padded| == width;
    assert line[..|entry|] == padded[..|entry|];
    assert line[width..width + 3] == " # ";
    assert line[width + 3..] == Join(os, " ");
  }

  /**
   * The spec `resolve` builds, annotated as intended: its `name=version`
   * entries are looked up by their names, so when every name has origins
   * the call succeeds with one line per entry.
   */
  lemma AnnotateSpecEntries(entries: seq<string>, names: seq<string>, versions: seq<string>,
                            origins: map<string, seq<string>>)
    requires |entries| == |names| == |versions|
    requires forall i :: 0 <= i < |names| ==> entries[i] == names[i] + "=" + versions[i] && '=' !in names[i]
    requires forall i :: 0 <= i < |names| ==> names[i] in origins
    ensures forall i :: 0 <= i < |entries| ==> Before(entries[i], '=') == names[i]
    ensures AnnotateSpec(entries, origins).Ok?
  {
    forall i | 0 <= i < |entries| ensures Before(entries[i], '=') == names[i] {
      BeforeFirst(names[i], '=', versions[i]);
    }
  }

  // ---------------------------------------------------------------------
  // resolve_plan: the call of annotate_spec as written

  /** An element of the value `resolve_plan` hands `annotate_spec`: a list of strings, or a `Spec` object. */
  datatype Item = StrList(items: seq<string>) | SpecObject(entries: seq<string>)

  /** What the call raises: `len` of an object without a length, `split` of a value that is not a string. */
  datatype CallError = TypeError | AttributeError

  /**
   * The pair `resolve` returns, which `resolve_plan` passes on as the spec:
   * without a pool `list(self)` (the plan, in `listed` order) and an empty
   * list; otherwise the `Spec` object and the list of broken dependencies.
   */
  function Returned(spec: seq<string>, r: FabPlan.Resolution, listed: seq<string>): (pair: seq<Item>)
    ensures |pair| == 2
    ensures pair[0].SpecObject? <==> r.Resolved?
    ensures !pair[1].SpecObject?
  {
    match r
    case Unresolved(_) => [StrList(listed), StrList([])]
    case Resolved(broken) => [SpecObject(spec), StrList(broken)]
  }

  /** `len(s)`: a list has one, a `Spec` object (no `__len__`) raises TypeError. */
  function Len(item: Item): Result<nat, CallError> {
    match item
    case StrList(items) => Ok(|items|)
    case SpecObject(_) => Err(TypeError)
  }

  /** `max(len(s) + 1 for s in spec)`, evaluated element by element: the first element without a length raises. */
  function ColumnLenOf(items: seq<Item>): (r: Result<nat, CallError>)
    requires items != []
    ensures r.Err? <==> exists i :: 0 <= i < |items| && items[i].SpecObject?
    decreases |items|
  {
    match Len(items[0])
    case Err(e) => Err(e)
    case Ok(n) =>
      if |items| == 1 then Ok(n + 1)
      else
        match ColumnLenOf(items[1..])
        case Err(e) => Err(e)
        case Ok(m) => Ok(if m > n + 1 then m else n + 1)
  }

  /**
   * `annotate_spec` handed elements that are not strings: a non-empty
   * sequence is truthy, the column length is computed over the elements,
   * and then the loop's first `s.split('=')` raises AttributeError, since
   * neither a list nor a `Spec` object has `split`.
   */
  function AnnotateItems(items: seq<Item>): (r: Result<string, CallError>)
    ensures r.Ok? <==> items == []
  {
    if items == [] then Ok("")
    else
      match ColumnLenOf(items)
      case Err(e) => Err(e)
      case Ok(_) => Err(AttributeError)
  }

  /**
   * As written, annotating what `resolve` returns always raises: TypeError
   * on `len` of the `Spec` when there is a pool, AttributeError on `split`
   * of the plan's list when there is none. So `resolve_plan` never writes a spec.
   */
  lemma ResolvePlanAsWrittenFails(spec: seq<string>, r: FabPlan.Resolution, listed: seq<string>)
    ensures AnnotateItems(Returned(spec, r, listed)) == Err(if r.Resolved? then TypeError else AttributeError)
  {
    var pair := Returned(spec, r, listed);
    assert pair[1..] == [pair[1]];
    if r.Resolved? {
      assert pair[0].SpecObject?;
    } else {
      assert !pair[0].SpecObject? && !pair[1].SpecObject?;
    }
  }

  /** Why `resolve_plan` as written ends. */
  datatype RunError = ResolveFailed(plan: FabPlan.PlanError) | AnnotateFailed(call: CallError)

  /**
   * `resolve_plan` as written, after the output path is chosen: the plan is
   * assembled from the bootstrap and the sources, resolved, and what
   * `resolve` returns is annotated. `listed` is `list(self)`, the plan in
   * the set's iteration order. Writing the spec out is not reached.
   */
  method ResolvePlan(plan: FabPlan.Plan, bootstrap: Option<seq<string>>, sources: seq<PlanSource>, listed: seq<string>)
    returns (r: Result<string, RunError>)
    requires plan.Valid()
    modifies plan, plan.packageorigins
    ensures r.Err?
    ensures r.Err? && r.error.AnnotateFailed? ==> r.error.call == if plan.pool.Some? then TypeError else AttributeError
  {
    RecordPlanSources(plan, bootstrap, sources);
    var spec: FabPlan.Spec, res: Result<FabPlan.Resolution, FabPlan.PlanError>;
    ghost var resolved: map<string, FabDependency.Dependency>, missing: map<string, FabDependency.Dependency>;
    spec, res, resolved, missing := plan.Resolve();
    if res.Err? {
      return Err(ResolveFailed(res.error));
    }
    var handed := Returned(spec.Entries(), res.value, listed);
    ResolvePlanAsWrittenFails(spec.Entries(), res.value, listed);
    r := match AnnotateItems(handed)
      case Err(e) => Err(AnnotateFailed(e))
      case Ok(text) => Ok(text);
  }
}
