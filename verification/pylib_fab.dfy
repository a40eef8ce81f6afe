/**
 * pylib's `fab` helpers: its own virtual-name table, the package spec set
 * (`PackagesSpec`) and the recursive dependency walk of
 * `Packages.get_package_spec`, with the alternative chosen from each
 * dependency group.
 *
 * The pool is a map from package name to the version and the dependency
 * groups of its newest package; whether a name exists in the pool is a
 * parameter `available`.
 */
module PylibFab {
  import opened Wrappers
  import opened Text
  import PylibDeb

  // ---------------------------------------------------------------------
  // Names

  /** `parse_package_name`: five virtual names mapped to their provider, any other name unchanged. */
  function ParsePackageName(name: string): string {
    if name == "perlapi-5.8.7" || name == "perlapi-5.8.8" then "perl-base"
    else if name == "perl5" then "perl"
    else if name == "aufs-modules" then "aufs-modules-2.6.20-15-386"
    else if name == "mail-transport-agent" then "postfix"
    else if name == "libapt-pkg-libc6.4-6-3.53" then "apt"
    else name
  }

  /**
   * `parse_package_name` is `deb`'s `parse_name` without the `awk` entry:
   * the two agree on every other name, and only `parse_name` rewrites `awk`.
   */
  lemma PackageNameAgrees(name: string)
    ensures name != "awk" ==> ParsePackageName(name) == PylibDeb.ParseName(name)
    ensures ParsePackageName("awk") == "awk" && PylibDeb.ParseName("awk") == "mawk"
  {
    assert PylibDeb.Virtuals.Keys == {"awk", "perl5", "perlapi-5.8.7", "perlapi-5.8.8", "mail-transport-agent",
                                      "libapt-pkg-libc6.4-6-3.53", "aufs-modules"};
  }

  /**
   * `parse_package_name` changes exactly its five virtual names (six
   * spellings), and applying it twice is applying it once.
   */
  lemma PackageNameRewrites(name: string)
    ensures ParsePackageName(name) != name <==>
      name in {"perlapi-5.8.7", "perlapi-5.8.8", "perl5", "aufs-modules", "mail-transport-agent", "libapt-pkg-libc6.4-6-3.53"}
    ensures ParsePackageName(ParsePackageName(name)) == ParsePackageName(name)
  {
  }

  // ---------------------------------------------------------------------
  // The package spec

  /** The entry `add` stores for a package. */
  function Entry(name: string, version: string): string {
    name + "=" + version
  }

  /** The stripped lines `read` adds, one per line. */
  function StrippedLines(lines: seq<string>): set<string> {
    if lines == [] then {} else StrippedLines(lines[..|lines| - 1]) + {Strip(lines[|lines| - 1], Bytes)}
  }

  /** Each line contributes its stripped text, and nothing else is added. */
  lemma {:induction false} StrippedLinesMembers(lines: seq<string>, x: string)
    ensures x in StrippedLines(lines) <==> exists i :: 0 <= i < |lines| && Strip(lines[i], Bytes) == x
  {
    if lines != [] {
      var front := lines[..|lines| - 1];
      StrippedLinesMembers(front, x);
      if exists i :: 0 <= i < |front| && Strip(front[i], Bytes) == x {
        var i :| 0 <= i < |front| && Strip(front[i], Bytes) == x;
        assert lines[i] == front[i];
      }
      if exists i :: 0 <= i < |lines| && Strip(lines[i], Bytes) == x {
        var i :| 0 <= i < |lines| && Strip(lines[i], Bytes) == x;
        if i < |front| {
          assert front[i] == lines[i];
        }
      }
    }
  }

  /** `exists(name)` as written: `name` is a substring of some entry. */
  predicate Mentions(packages: set<string>, name: string) {
    exists p :: p in packages && Contains(p, name)
  }

  /**
   * `exists(name, version)`: with a non-empty version, the exact entry is
   * stored; with none (or an empty one), `name` is a substring of some entry.
   */
  predicate Has(packages: set<string>, name: string, version: Option<string>) {
    if version.Some? && version.value != [] then Entry(name, version.value) in packages
    else Mentions(packages, name)
  }

  /** An entry for `name`: the name alone, or the name followed by `=`. */
  predicate IsEntryFor(p: string, name: string) {
    p == name || IsPrefix(name + "=", p)
  }

  /** Whether the spec lists `name`: some entry is an entry for it. */
  predicate Lists(packages: set<string>, name: string) {
    exists p :: p in packages && IsEntryFor(p, name)
  }

  /** `PackagesSpec`: the set of `name=version` entries a resolution produces. */
  class PackagesSpec {
    var packages: set<string>

    /** An empty spec. */
    constructor()
      ensures packages == {}
    {
      packages := {};
    }

    /** `add`: store the entry `name=version`. */
    method Add(name: string, version: string)
      modifies this
      ensures packages == old(packages) + {Entry(name, version)}
    {
      packages := packages + {name + "=" + version};
    }

    /** `read` of a text that is not a file name: add each line, stripped. */
    method Read(input: string)
      modifies this
      ensures packages == old(packages) + StrippedLines(Split(input, '\n'))
    {
      var lines := Split(input, '\n');
      for i := 0 to |lines|
        invariant packages == old(packages) + StrippedLines(lines[..i])
      {
        assert lines[..i + 1][..i] == lines[..i];
        packages := packages + {Strip(lines[i], Bytes)};
      }
      assert lines[..|lines|] == lines;
    }

    /** `exists`: the exact entry when a version is given, else a substring search over the entries. */
    method Exists(name: string, version: Option<string>) returns (r: bool)
      ensures r == Has(packages, name, version)
    {
      if version.Some? && version.value != [] {
        return name + "=" + version.value in packages;
      }
      var todo := packages;
      while todo != {}
        invariant todo <= packages
        invariant forall p :: p in packages - todo ==> !Contains(p, name)
        decreases |todo|
      {
        var p :| p in todo;
        if Contains(p, name) {
          return true;
        }
        todo := todo - {p};
      }
      return false;
    }

    /** The search `exists(name)` evidently means: an entry for `name` itself. */
    method Holds(name: string) returns (r: bool)
      ensures r == Lists(packages, name)
    {
      var todo := packages;
      while todo != {}
        invariant todo <= packages
        invariant forall p :: p in packages - todo ==> !IsEntryFor(p, name)
        decreases |todo|
      {
        var p :| p in todo;
        if IsEntryFor(p, name) {
          return true;
        }
        todo := todo - {p};
      }
      return false;
    }
  }

  /** The entry `add` stores is found by both forms of `exists`, and lists its name. */
  lemma AddedIsFound(packages: set<string>, name: string, version: string)
    ensures version != [] ==> Has(packages + {Entry(name, version)}, name, Some(version))
    ensures Has(packages + {Entry(name, version)}, name, None)
    ensures Lists(packages + {Entry(name, version)}, name)
  {
    var e := Entry(name, version);
    assert e in packages + {e};
    assert IsPrefix(name, e);
    assert IsPrefix(name + "=", e) by {
      assert e[..|name| + 1] == name + "=";
    }
  }

  /**
   * Adding `name=version` lists exactly one more name: `name` itself, for
   * names without `=`.
   */
  lemma ListsAdded(packages: set<string>, name: string, version: string, other: string)
    requires '=' !in name && '=' !in other
    ensures Lists(packages + {Entry(name, version)}, other) <==> Lists(packages, other) || other == name
  {
    var e := Entry(name, version);
    AddedIsFound(packages, name, version);
    if Lists(packages + {e}, other) && !Lists(packages, other) {
      var p :| p in packages + {e} && IsEntryFor(p, other);
      assert p == e;
      if p == other {
        assert false;
      } else {
        SamePrefixName(name, version, other);
      }
    }
  }

  /** `other=` begins `name=version` only for `other == name`, when neither holds `=`. */
  lemma SamePrefixName(name: string, version: string, other: string)
    requires '=' !in name && '=' !in other
    requires IsPrefix(other + "=", Entry(name, version))
    ensures other == name
  {
    var e := Entry(name, version);
    assert e[..|name|] == name && e[|name|] == '=';
    FindFirst(e, '=', |name|);
    assert e[..|other|] == other && e[|other|] == '=';
    FindFirst(e, '=', |other|);
  }

  /**
   * The substring search lets a listed name hide another: once `perl-base`
   * is in the spec, `exists("perl")` holds although no `perl` entry is.
   */
  lemma SubstringShadows()
    ensures Mentions({Entry("perl-base", "5.8.8")}, "perl")
    ensures !Lists({Entry("perl-base", "5.8.8")}, "perl")
  {
    var e := Entry("perl-base", "5.8.8");
    assert IsPrefix("perl", e);
    assert e in {e} && Contains(e, "perl");
    assert e[4] == '-';
  }

  // ---------------------------------------------------------------------
  // The dependency walk

  /** The fields of a pool package `get_package_spec` reads: its version and its dependency groups. */
  datatype Package = Package(version: string, depends: seq<seq<string>>)

  type Pool = map<string, Package>

  datatype FabError =
    | NoPackage(name: string)    // `get_package` found no file, and opening None fails
    | EmptyGroup(name: string)   // a dependency group with no alternative: `dep[0]` fails

  /** The chosen name of a group is its own normal form. */
  lemma {:induction false} ChoiceNormal(group: seq<string>, available: string -> bool)
    requires |group| >= 1
    ensures ParsePackageName(PylibDeb.Choice(group, ParsePackageName, available))
         == PylibDeb.Choice(group, ParsePackageName, available)
    decreases |group|
  {
    PackageNameRewrites(group[0]);
    if |group| > 1 {
      ChoiceNormal(group[1..], available);
    }
  }

  /** The group has an alternative, and the spec lists the chosen one. */
  ghost predicate ChoiceListed(group: seq<string>, available: string -> bool, packages: set<string>) {
    |group| >= 1 && Lists(packages, PylibDeb.Choice(group, ParsePackageName, available))
  }

  /** Every group of the package has an alternative, and the spec lists the chosen one. */
  ghost predicate DepsListed(package: Package, available: string -> bool, packages: set<string>) {
    forall g :: 0 <= g < |package.depends| ==> ChoiceListed(package.depends[g], available, packages)
  }

  /** The entries `get_package_spec` adds for the names it resolves. */
  ghost function Entries(pool: Pool, names: set<string>): set<string>
    requires names <= pool.Keys
  {
    set n | n in names :: Entry(n, pool[n].version)
  }

  /** The pool names the spec does not list yet: the walk's measure of work left. */
  ghost function Pending(pool: Pool, packages: set<string>): set<string> {
    set n | n in pool && !Lists(packages, n)
  }

  /** Listing is kept when entries are added. */
  lemma ListsGrows(a: set<string>, b: set<string>, name: string)
    requires a <= b && Lists(a, name)
    ensures Lists(b, name)
  {
  }

  /** A growing spec leaves no more work, and none for a name it now lists. */
  lemma PendingShrinks(pool: Pool, a: set<string>, b: set<string>, name: string)
    requires a <= b && name in pool && !Lists(a, name) && Lists(b, name)
    ensures Pending(pool, b) < Pending(pool, a)
  {
    forall n | n in Pending(pool, b) ensures n in Pending(pool, a) {
      if Lists(a, n) {
        ListsGrows(a, b, n);
      }
    }
    assert name in Pending(pool, a) - Pending(pool, b);
  }

  /** Dependencies listed once stay listed. */
  lemma DepsListedGrows(package: Package, available: string -> bool, a: set<string>, b: set<string>)
    requires a <= b && DepsListed(package, available, a)
    ensures DepsListed(package, available, b)
  {
    forall g | 0 <= g < |package.depends| ensures ChoiceListed(package.depends[g], available, b) {
      ListsGrows(a, b, PylibDeb.Choice(package.depends[g], ParsePackageName, available));
    }
  }

  /** Entries of more names: the union of the entries. */
  lemma EntriesUnion(pool: Pool, a: set<string>, b: set<string>)
    requires a <= pool.Keys && b <= pool.Keys
    ensures Entries(pool, a + b) == Entries(pool, a) + Entries(pool, b)
  {
  }

  /** Two rounds of additions add the entries of both rounds' names. */
  lemma EntriesAfter(pool: Pool, before: set<string>, names: set<string>, more: set<string>,
                     packages: set<string>, after: set<string>)
    requires names <= pool.Keys && more <= pool.Keys
    requires packages == before + Entries(pool, names) && after == packages + Entries(pool, more)
    ensures after == before + Entries(pool, names + more)
  {
    EntriesUnion(pool, names, more);
  }

  /** The walk's state after the groups before `i` of the package `name` are handled. */
  ghost predicate Walked(pool: Pool, available: string -> bool, name: string, i: nat,
                         before: set<string>, names: set<string>, packages: set<string>)
  {
    && name in pool && i <= |pool[name].depends| && name in names && names <= pool.Keys
    && packages == before + Entries(pool, names)
    && Lists(packages, name)
    && (forall g :: 0 <= g < i ==> ChoiceListed(pool[name].depends[g], available, packages))
    && (forall m :: m in names && m != name ==> DepsListed(pool[m], available, packages))
  }

  /** A finished walk of `name` lists every dependency of every name it resolved. */
  lemma WalkedDone(pool: Pool, available: string -> bool, name: string,
                   before: set<string>, names: set<string>, packages: set<string>)
    requires name in pool && Walked(pool, available, name, |pool[name].depends|, before, names, packages)
    ensures forall m :: m in names ==> DepsListed(pool[m], available, packages)
  {
  }

  /**
   * One more group handled: the recursive call for its chosen name added
   * the entries of `more` and listed their dependencies.
   */
  lemma WalkedStep(pool: Pool, available: string -> bool, name: string, i: nat,
                   before: set<string>, names: set<string>, packages: set<string>,
                   more: set<string>, after: set<string>)
    requires Walked(pool, available, name, i, before, names, packages)
    requires i < |pool[name].depends| && |pool[name].depends[i]| >= 1
    requires more <= pool.Keys && after == packages + Entries(pool, more)
    requires Lists(after, ParsePackageName(PylibDeb.Choice(pool[name].depends[i], ParsePackageName, available)))
    requires forall m :: m in more ==> DepsListed(pool[m], available, after)
    ensures Walked(pool, available, name, i + 1, before, names + more, after)
  {
    EntriesAfter(pool, before, names, more, packages, after);
    ChoiceNormal(pool[name].depends[i], available);
    ListsGrows(packages, after, name);
    forall g | 0 <= g < i ensures ChoiceListed(pool[name].depends[g], available, after) {
      ListsGrows(packages, after, PylibDeb.Choice(pool[name].depends[g], ParsePackageName, available));
    }
    forall m | m in names + more && m != name ensures DepsListed(pool[m], available, after) {
      if m !in more {
        DepsListedGrows(pool[m], available, packages, after);
      }
    }
    assert ChoiceListed(pool[name].depends[i], available, after);
  }

  /** The walk starts once `name=version` is added. */
  lemma WalkedStart(pool: Pool, available: string -> bool, name: string, before: set<string>)
    requires name in pool
    ensures Walked(pool, available, name, 0, before, {name}, before + {Entry(name, pool[name].version)})
  {
    AddedIsFound(before, name, pool[name].version);
    assert Entries(pool, {name}) == {Entry(name, pool[name].version)};
  }

  /**
   * `get_package_spec`: unless the spec already lists the normalised name,
   * add `name=version` for it from the pool, then walk each dependency
   * group, resolving its chosen alternative recursively.
   *
   * The spec only grows, by the entries of the names resolved; a listed
   * name leaves it unchanged; an unlisted name missing from the pool is an
   * error, with the spec unchanged; on success the name is listed and so is the
   * chosen alternative of every group of every name resolved.
   */
  method GetPackageSpec(spec: PackagesSpec, pool: Pool, available: string -> bool, name: string)
    returns (r: Result<(), FabError>, ghost names: set<string>)
    modifies spec
    decreases Pending(pool, spec.packages)
    ensures names <= pool.Keys
    ensures spec.packages == old(spec.packages) + Entries(pool, names)
    ensures Lists(old(spec.packages), ParsePackageName(name)) ==> names == {} && r.Ok?
    ensures !Lists(old(spec.packages), ParsePackageName(name)) && ParsePackageName(name) !in pool ==>
      r == Err(NoPackage(ParsePackageName(name))) && names == {}
    ensures r.Ok? ==> Lists(spec.packages, ParsePackageName(name))
    ensures r.Ok? ==> forall m :: m in names ==> DepsListed(pool[m], available, spec.packages)
  {
    var n := ParsePackageName(name);
    names := {};
    assert Entries(pool, {}) == {};
    var listed := spec.Holds(n);
    if listed {
      return Ok(()), names;
    }
    if n !in pool {
      return Err(NoPackage(n)), names;
    }
    ghost var before := spec.packages;
    var package := pool[n];
    spec.Add(n, package.version);
    WalkedStart(pool, available, n, before);
    names := {n};
    for i := 0 to |package.depends|
      invariant Walked(pool, available, n, i, before, names, spec.packages)
    {
      var group := package.depends[i];
      var depname: string;
      if |group| > 1 {
        depname := PylibDeb.ChooseAlternative(group, ParsePackageName, available);
      } else if |group| == 1 {
        depname := ParsePackageName(group[0]);
      } else {
        return Err(EmptyGroup(n)), names;
      }
      assert depname == PylibDeb.Choice(group, ParsePackageName, available);
      ghost var packages := spec.packages;
      PendingShrinks(pool, before, packages, n);
      ghost var more: set<string>;
      r, more := GetPackageSpec(spec, pool, available, depname);
      if r.Err? {
        EntriesAfter(pool, before, names, more, packages, spec.packages);
        return r, names + more;
      }
      WalkedStep(pool, available, n, i, before, names, packages, more, spec.packages);
      names := names + more;
    }
    WalkedDone(pool, available, n, before, names, spec.packages);
    return Ok(()), names;
  }

  /** The state after the first names of a plan are resolved. */
  ghost predicate Planned(pool: Pool, available: string -> bool, plan: seq<string>,
                          before: set<string>, names: set<string>, packages: set<string>)
  {
    && names <= pool.Keys
    && packages == before + Entries(pool, names)
    && (forall i :: 0 <= i < |plan| ==> Lists(packages, ParsePackageName(plan[i])))
    && (forall m :: m in names ==> DepsListed(pool[m], available, packages))
  }

  /** Resolving one more plan name keeps the plan's state. */
  lemma PlannedStep(pool: Pool, available: string -> bool, plan: seq<string>, i: nat,
                    before: set<string>, names: set<string>, packages: set<string>,
                    more: set<string>, after: set<string>)
    requires i < |plan| && Planned(pool, available, plan[..i], before, names, packages)
    requires more <= pool.Keys && after == packages + Entries(pool, more)
    requires Lists(after, ParsePackageName(plan[i]))
    requires forall m :: m in more ==> DepsListed(pool[m], available, after)
    ensures Planned(pool, available, plan[..i + 1], before, names + more, after)
  {
    EntriesAfter(pool, before, names, more, packages, after);
    forall j | 0 <= j < i + 1 ensures Lists(after, ParsePackageName(plan[j])) {
      if j < i {
        assert plan[..i][j] == plan[j];
        ListsGrows(packages, after, ParsePackageName(plan[j]));
      }
    }
    forall m | m in names + more ensures DepsListed(pool[m], available, after) {
      if m !in more {
        DepsListedGrows(pool[m], available, packages, after);
      }
    }
  }

  /**
   * The loop of `plan_resolve`: `get_package_spec` for each plan name in
   * turn, stopping at the first failure. On success every plan name is
   * listed, and so is the chosen alternative of every group of every name
   * resolved.
   */
  method ResolveNames(spec: PackagesSpec, pool: Pool, available: string -> bool, plan: seq<string>)
    returns (r: Result<(), FabError>, ghost names: set<string>)
    modifies spec
    ensures names <= pool.Keys
    ensures spec.packages == old(spec.packages) + Entries(pool, names)
    ensures r.Ok? ==> forall i :: 0 <= i < |plan| ==> Lists(spec.packages, ParsePackageName(plan[i]))
    ensures r.Ok? ==> forall m :: m in names ==> DepsListed(pool[m], available, spec.packages)
  {
    ghost var before := spec.packages;
    names := {};
    assert Entries(pool, {}) == {};
    for i := 0 to |plan|
      invariant Planned(pool, available, plan[..i], before, names, spec.packages)
    {
      ghost var packages := spec.packages;
      ghost var more: set<string>;
      r, more := GetPackageSpec(spec, pool, available, plan[i]);
      if r.Err? {
        EntriesAfter(pool, before, names, more, packages, spec.packages);
        return r, names + more;
      }
      PlannedStep(pool, available, plan, i, before, names, packages, more, spec.packages);
      names := names + more;
    }
    assert plan[..|plan|] == plan;
    return Ok(()), names;
  }

  /**
   * `plan_resolve`: a new spec, seeded with the lines of `exclude` when one
   * is given, then the plan's names resolved into it.
   */
  method PlanResolve(pool: Pool, available: string -> bool, plan: seq<string>, exclude: Option<string>)
    returns (spec: PackagesSpec, r: Result<(), FabError>, ghost names: set<string>)
    ensures fresh(spec)
    ensures names <= pool.Keys
    ensures var seed := if exclude.Some? && exclude.value != [] then StrippedLines(Split(exclude.value, '\n')) else {};
      spec.packages == seed + Entries(pool, names)
    ensures r.Ok? ==> forall i :: 0 <= i < |plan| ==> Lists(spec.packages, ParsePackageName(plan[i]))
    ensures r.Ok? ==> forall m :: m in names ==> DepsListed(pool[m], available, spec.packages)
  {
    spec := new PackagesSpec();
    if exclude.Some? && exclude.value != [] {
      spec.Read(exclude.value);
    }
    r, names := ResolveNames(spec, pool, available, plan);
  }
}
