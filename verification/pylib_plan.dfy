/**
 * pylib's plan resolver: the `Spec` dictionary of resolved packages, the
 * rule that takes a package's name out of a versioned declaration such as
 * `foo>=1.0`, and the `resolve` loop, which resolves the plan round by round
 * until no dependency is left unresolved.
 *
 * The pool is reduced to what `resolve` asks of it: for each package name it
 * can supply, the version and the dependencies of that package's `.deb`.
 * Version comparison (`checkversion`) is a parameter.
 */
module PylibPlan {
  import opened Wrappers
  import opened Text

  // ---------------------------------------------------------------------
  // Spec

  /** pylib's `Spec`: a dictionary from package name to version. */
  class Spec {
    var pkgs: map<string, string>

    constructor ()
      ensures pkgs == map[]
    {
      pkgs := map[];
    }

    /** `add`: the name maps to this version from now on, whatever it mapped to before. */
    method Add(name: string, version: string)
      modifies this
      ensures pkgs == old(pkgs)[name := version]
    {
      pkgs := pkgs[name := version];
    }

    /** `remove`: `del`, which raises KeyError for a name that is not there. */
    method Remove(name: string) returns (r: Result<(), string>)
      modifies this
      ensures name in old(pkgs) ==> r.Ok? && pkgs == old(pkgs) - {name}
      ensures name !in old(pkgs) ==> r == Err(name) && pkgs == old(pkgs)
    {
      if name !in pkgs {
        return Err(name);
      }
      pkgs := pkgs - {name};
      r := Ok(());
    }

    /** `exists`, which is `dict.has_key`. */
    predicate Exists(name: string)
      reads this
    {
      name in pkgs
    }
  }

  /**
   * `order` is an order in which a dictionary may iterate over `pkgs`: each
   * key exactly once. Python 2 does not fix that order.
   */
  ghost predicate Enumerates(order: seq<string>, pkgs: map<string, string>) {
    (forall i, j :: 0 <= i < j < |order| ==> order[i] != order[j])
    && (forall n :: n in pkgs <==> n in order)
  }

  /** The entry `name=version` that iteration yields for one package. */
  function Entry(name: string, version: string): string {
    name + "=" + version
  }

  /** `__iter__`: one entry per package, in the dictionary's order. */
  ghost function Entries(pkgs: map<string, string>, order: seq<string>): (lines: seq<string>)
    requires Enumerates(order, pkgs)
    ensures |lines| == |order|
    ensures forall i :: 0 <= i < |lines| ==> lines[i] == Entry(order[i], pkgs[order[i]])
  {
    seq(|order|, i requires 0 <= i < |order| => Entry(order[i], pkgs[order[i]]))
  }

  /** `__str__`: the entries joined by newlines. */
  ghost function SpecText(pkgs: map<string, string>, order: seq<string>): string
    requires Enumerates(order, pkgs)
  {
    Join(Entries(pkgs, order), "\n")
  }

  /** A character that can start a version relation. */
  predicate IsRelationChar(c: char) {
    c == '<' || c == '>' || c == '='
  }

  /** A package name as `resolve` can read it back out of an entry. */
  predicate PlainName(n: string) {
    n != [] && '\n' !in n && forall i :: 0 <= i < |n| ==> !IsRelationChar(n[i])
  }

  /** A version that does not itself look like a relation or span lines. */
  predicate PlainVersion(v: string) {
    '\n' !in v && '<' !in v && '>' !in v
  }

  /**
   * `str` of a non-empty spec splits back into one line per package, and
   * each line names its package again under the rule `resolve` uses, with
   * the package's current version after the `=`.
   */
  lemma SpecTextLines(pkgs: map<string, string>, order: seq<string>)
    requires Enumerates(order, pkgs) && |order| >= 1
    requires forall n :: n in pkgs ==> PlainName(n) && PlainVersion(pkgs[n])
    ensures var lines := Split(SpecText(pkgs, order), '\n');
      |lines| == |order|
      && forall i :: 0 <= i < |lines| ==>
           NameOf(lines[i]) == order[i] && lines[i] == order[i] + "=" + pkgs[order[i]]
  {
    var lines := Entries(pkgs, order);
    forall i | 0 <= i < |lines|
      ensures '\n' !in lines[i]
      ensures NameOf(lines[i]) == order[i]
    {
      assert order[i] in pkgs;
      EntryNameOf(order[i], pkgs[order[i]]);
    }
    SplitJoin(lines, '\n');
  }

  /**
   * After `add`, `str` lists the name on exactly one line, with the version
   * just added: adding a name again overwrites its entry instead of
   * duplicating it.
   */
  lemma AddOverwrites(pkgs: map<string, string>, name: string, version: string, order: seq<string>)
    requires Enumerates(order, pkgs[name := version])
    requires forall n :: n in pkgs[name := version] ==> PlainName(n) && PlainVersion(pkgs[name := version][n])
    ensures Entry(name, version) in Entries(pkgs[name := version], order)
    ensures var lines := Entries(pkgs[name := version], order);
      forall i :: 0 <= i < |lines| ==> (NameOf(lines[i]) == name <==> lines[i] == Entry(name, version))
  {
    var after := pkgs[name := version];
    var lines := Entries(after, order);
    assert name in order;
    var k :| 0 <= k < |order| && order[k] == name;
    assert lines[k] == Entry(name, version);
    forall i | 0 <= i < |lines|
      ensures NameOf(lines[i]) == order[i]
    {
      assert order[i] in after;
      EntryNameOf(order[i], after[order[i]]);
    }
  }

  // ---------------------------------------------------------------------
  // The name of a versioned declaration

  /** The relations `resolve` looks for, in the order it looks for them. */
  const Relations: seq<string> := [">=", ">>", "<=", "<<", "="]

  /** `s.find(sub)`: where sub first occurs in s. */
  function FindSub(s: string, sub: string): (r: Option<nat>)
    requires sub != []
    ensures r.None? <==> !Contains(s, sub)
    ensures r.Some? ==> r.value + |sub| <= |s| && IsPrefix(sub, s[r.value..])
    ensures r.Some? ==> forall j :: 0 <= j < r.value ==> !IsPrefix(sub, s[j..])
    decreases |s|
  {
    if IsPrefix(sub, s) then Some(0)
    else if s == [] then None
    else
      match FindSub(s[1..], sub)
      case None => None
      case Some(k) =>
        assert forall j :: 1 <= j < k + 1 ==> s[j..] == s[1..][j - 1..];
        Some(k + 1)
  }

  /** `s.split(sub)[0]`: what comes before the first sub, or all of s. */
  function BeforeSub(s: string, sub: string): (r: string)
    requires sub != []
    ensures IsPrefix(r, s)
    ensures !Contains(s, sub) ==> r == s
  {
    match FindSub(s, sub)
    case None => s
    case Some(i) => s[..i]
  }

  /** The name by the first of rels that occurs in pkg; pkg itself if none does. */
  function NameAmong(pkg: string, rels: seq<string>): (r: string)
    requires forall k :: 0 <= k < |rels| ==> rels[k] != []
    ensures IsPrefix(r, pkg)
  {
    if rels == [] then pkg
    else if Contains(pkg, rels[0]) then BeforeSub(pkg, rels[0])
    else NameAmong(pkg, rels[1..])
  }

  /** The package name `resolve` takes out of a declaration. */
  function NameOf(pkg: string): string {
    NameAmong(pkg, Relations)
  }

  /** The loop of `resolve` that finds the name: the first relation present wins. */
  method PackageName(pkg: string) returns (name: string)
    ensures name == NameOf(pkg)
    ensures IsPrefix(name, pkg)
  {
    name := pkg;
    for k := 0 to |Relations|
      invariant NameAmong(pkg, Relations[k..]) == NameOf(pkg)
    {
      assert Relations[k..][1..] == Relations[k + 1..];
      if Contains(pkg, Relations[k]) {
        name := BeforeSub(pkg, Relations[k]);
        return;
      }
    }
  }

  /** A string that contains sub contains every character of sub. */
  lemma {:induction false} ContainsChar(s: string, sub: string, i: nat)
    requires i < |sub| && Contains(s, sub)
    ensures sub[i] in s
    decreases |s|
  {
    if IsPrefix(sub, s) {
      assert s[i] == sub[i];
    } else {
      ContainsChar(s[1..], sub, i);
    }
  }

  /** sub occurring at position k means s contains it. */
  lemma {:induction false} ContainsAt(s: string, sub: string, k: nat)
    requires k + |sub| <= |s| && IsPrefix(sub, s[k..])
    ensures Contains(s, sub)
    decreases k
  {
    if k > 0 {
      assert s[1..][k - 1..] == s[k..];
      ContainsAt(s[1..], sub, k - 1);
    }
  }

  /** sub first occurs at k when it occurs there and nowhere before. */
  lemma {:induction false} FindSubAt(s: string, sub: string, k: nat)
    requires sub != [] && k + |sub| <= |s| && IsPrefix(sub, s[k..])
    requires forall j :: 0 <= j < k ==> !IsPrefix(sub, s[j..])
    ensures FindSub(s, sub) == Some(k)
    decreases k
  {
    if k > 0 {
      assert s[0..] == s;
      forall j | 0 <= j < k - 1
        ensures !IsPrefix(sub, s[1..][j..])
      {
        assert s[1..][j..] == s[j + 1..];
      }
      assert s[1..][k - 1..] == s[k..];
      FindSubAt(s[1..], sub, k - 1);
    }
  }

  /**
   * The relation at index k wins when pkg contains it and none of the
   * relations before it.
   */
  lemma {:induction false} NameAmongAt(pkg: string, rels: seq<string>, k: nat)
    requires forall j :: 0 <= j < |rels| ==> rels[j] != []
    requires k < |rels| && Contains(pkg, rels[k])
    requires forall j :: 0 <= j < k ==> !Contains(pkg, rels[j])
    ensures NameAmong(pkg, rels) == BeforeSub(pkg, rels[k])
    decreases k
  {
    if k > 0 {
      assert !Contains(pkg, rels[0]);
      NameAmongAt(pkg, rels[1..], k - 1);
    }
  }

  /** A declaration containing none of the relations is its own name. */
  lemma {:induction false} NameAmongNone(pkg: string, rels: seq<string>)
    requires forall j :: 0 <= j < |rels| ==> rels[j] != [] && !Contains(pkg, rels[j])
    ensures NameAmong(pkg, rels) == pkg
    decreases |rels|
  {
    if rels != [] {
      NameAmongNone(pkg, rels[1..]);
    }
  }

  /** In n + rel + v, with no relation characters in n, rel first occurs right after n. */
  lemma FirstAfterName(n: string, rel: string, v: string)
    requires rel != [] && forall i :: 0 <= i < |n| ==> !IsRelationChar(n[i])
    requires IsRelationChar(rel[0])
    ensures Contains(n + rel + v, rel)
    ensures BeforeSub(n + rel + v, rel) == n
  {
    var s := n + rel + v;
    assert s[|n|..][..|rel|] == rel;
    forall j | 0 <= j < |n|
      ensures !IsPrefix(rel, s[j..])
    {
      assert s[j..][0] == n[j];
    }
    FindSubAt(s, rel, |n|);
    ContainsAt(s, rel, |n|);
    assert s[..|n|] == n;
  }

  /** Every character of n + rel + v comes from one of the three. */
  lemma CharsOf(n: string, rel: string, v: string, c: char)
    requires c in n + rel + v
    ensures c in n || c in rel || c in v
  {
    var s := n + rel + v;
    var i :| 0 <= i < |s| && s[i] == c;
    if i < |n| {
      assert s[i] == n[i];
    } else if i < |n| + |rel| {
      assert s[i] == rel[i - |n|];
    } else {
      assert s[i] == v[i - |n| - |rel|];
    }
  }

  /** None of the relations before index k occurs in s, when each has a character s lacks. */
  lemma EarlierAbsent(s: string, k: nat)
    requires k <= |Relations|
    requires forall j :: 0 <= j < k ==> Relations[j][0] !in s || (|Relations[j]| > 1 && Relations[j][1] !in s)
    ensures forall j :: 0 <= j < k ==> !Contains(s, Relations[j])
  {
    forall j | 0 <= j < k
      ensures !Contains(s, Relations[j])
    {
      if Contains(s, Relations[j]) {
        ContainsChar(s, Relations[j], 0);
        ContainsChar(s, Relations[j], 1);
      }
    }
  }

  /**
   * A declaration `name` + relation + `version`, with a plain name and a
   * version free of relation characters, gives back exactly the name, for
   * every relation `resolve` knows.
   */
  lemma DeclarationName(n: string, k: nat, v: string)
    requires k < |Relations| && PlainName(n)
    requires forall i :: 0 <= i < |v| ==> !IsRelationChar(v[i])
    ensures NameOf(n + Relations[k] + v) == n
  {
    var rel := Relations[k];
    var s := n + rel + v;
    FirstAfterName(n, rel, v);
    forall c | c in s && IsRelationChar(c)
      ensures c in rel
    {
      CharsOf(n, rel, v, c);
    }
    forall j | 0 <= j < k
      ensures Relations[j][0] !in s || (|Relations[j]| > 1 && Relations[j][1] !in s)
    {
      assert Relations[j][0] in rel ==> Relations[j][1] !in rel;
    }
    EarlierAbsent(s, k);
    NameAmongAt(s, Relations, k);
  }

  /**
   * An entry `name=version`, with a plain name and a version holding no `<`
   * or `>`, gives back exactly the name.
   */
  lemma EntryNameOf(n: string, v: string)
    requires PlainName(n) && PlainVersion(v)
    ensures NameOf(Entry(n, v)) == n
  {
    var s := n + "=" + v;
    assert Relations[4] == "=";
    FirstAfterName(n, "=", v);
    forall c | c in s && (c == '<' || c == '>')
      ensures false
    {
      CharsOf(n, "=", v, c);
    }
    assert '<' !in s && '>' !in s;
    EarlierAbsent(s, 4);
    NameAmongAt(s, Relations, 4);
  }

  /** A declaration without relation characters is its own name. */
  lemma PlainDeclaration(pkg: string)
    requires forall i :: 0 <= i < |pkg| ==> !IsRelationChar(pkg[i])
    ensures NameOf(pkg) == pkg
  {
    assert '<' !in pkg && '>' !in pkg && '=' !in pkg;
    EarlierAbsent(pkg, |Relations|);
    NameAmongNone(pkg, Relations);
  }

  /**
   * The order of the relations decides, not their position: in `a=1>=2`
   * the `>=` is looked for first, so the name is `a=1`.
   */
  lemma RelationOrderWins()
    ensures NameOf("a=1>=2") == "a=1"
  {
    var s := "a=1>=2";
    assert s[3..][..2] == ">=";
    forall j | 0 <= j < 3
      ensures !IsPrefix(">=", s[j..])
    {
      assert s[j..][0] == s[j];
    }
    ContainsAt(s, ">=", 3);
    FindSubAt(s, ">=", 3);
    NameAmongAt(s, Relations, 0);
  }

  // ---------------------------------------------------------------------
  // Resolution
  //
  // The round and the package step take the naming rule as a parameter
  // `name`; `Resolve` instantiates it with `NameOf`, the rule `PackageName`
  // computes.

  /** What the pool knows of one package: its version and its dependencies. */
  datatype Deb = Deb(version: string, depends: set<string>)

  /** The package `.deb` files the pool supplies, by package name. */
  type Pool = map<string, Deb>

  datatype ResolveError =
    | Missing(name: string)                      // KeyError: the pool has no package of that name
    | VersionError(pkg: string, version: string) // "dependency version error"

  /** pkg names a package the pool has, at a version the declaration accepts. */
  predicate Good(pool: Pool, check: (string, string) -> bool, name: string -> string, pkg: string) {
    name(pkg) in pool && check(pkg, pool[name(pkg)].version)
  }

  /** The error `resolve` raises names a package the pool lacks, or a version its declaration refuses. */
  predicate Raised(pool: Pool, check: (string, string) -> bool, name: string -> string, e: ResolveError) {
    match e
    case Missing(n) => n !in pool
    case VersionError(pkg, version) =>
      name(pkg) in pool && version == pool[name(pkg)].version && !check(pkg, version)
  }

  /** The names of a set of declarations. */
  ghost function Names(name: string -> string, ps: set<string>): set<string> {
    set p | p in ps :: name(p)
  }

  /** The spec entries the pool gives for a set of names. */
  ghost function Versions(pool: Pool, ns: set<string>): (r: map<string, string>)
    ensures forall n :: n in r <==> n in ns && n in pool
    ensures forall n :: n in r ==> r[n] == pool[n].version
  {
    map n | n in ns && n in pool :: pool[n].version
  }

  /** The `name=version` strings of a set of declarations. */
  ghost function Pinned(pool: Pool, name: string -> string, ps: set<string>): set<string> {
    set p | p in ps && name(p) in pool :: name(p) + "=" + pool[name(p)].version
  }

  /** Everything processing ps adds to `resolved`: each declaration, its name and its pinned form. */
  ghost function Marks(pool: Pool, name: string -> string, ps: set<string>): set<string> {
    ps + Names(name, ps) + Pinned(pool, name, ps)
  }

  /** The dependencies of the packages a set of declarations names. */
  ghost function DepsOf(pool: Pool, name: string -> string, ps: set<string>): set<string> {
    set n, d | n in Names(name, ps) && n in pool && d in pool[n].depends :: d
  }

  /** Every dependency any package of the pool has. */
  ghost function AllDeps(pool: Pool): set<string> {
    set n, d | n in pool && d in pool[n].depends :: d
  }

  lemma DepsWithin(pool: Pool, name: string -> string, ps: set<string>)
    ensures DepsOf(pool, name, ps) <= AllDeps(pool)
  {
  }

  lemma MarksStep(pool: Pool, name: string -> string, ps: set<string>, p: string)
    requires name(p) in pool
    ensures Names(name, ps + {p}) == Names(name, ps) + {name(p)}
    ensures Marks(pool, name, ps + {p}) == Marks(pool, name, ps) + {p, name(p), name(p) + "=" + pool[name(p)].version}
  {
    assert Names(name, ps + {p}) == Names(name, ps) + {name(p)};
    assert Pinned(pool, name, ps + {p}) == Pinned(pool, name, ps) + {name(p) + "=" + pool[name(p)].version};
  }

  lemma DepsStep(pool: Pool, name: string -> string, ps: set<string>, p: string)
    requires name(p) in pool
    ensures DepsOf(pool, name, ps + {p}) == DepsOf(pool, name, ps) + pool[name(p)].depends
  {
    MarksStep(pool, name, ps, p);
  }

  lemma VersionsStep(pool: Pool, spec0: map<string, string>, ns: set<string>, n: string)
    requires n in pool
    ensures spec0 + Versions(pool, ns + {n}) == (spec0 + Versions(pool, ns))[n := pool[n].version]
  {
  }

  /**
   * One package of a round (the body of the inner loop): its name, then a
   * KeyError when the pool lacks it, then the version check, and only then
   * the spec entry, the three resolved marks and its dependencies.
   */
  method ResolvePackage(spec: Spec, pool: Pool, check: (string, string) -> bool, name: string -> string,
                        pkg: string, resolved: set<string>, depends: set<string>)
    returns (r: Result<(set<string>, set<string>), ResolveError>)
    modifies spec
    ensures r.Ok? <==> Good(pool, check, name, pkg)
    ensures r.Err? ==> Raised(pool, check, name, r.error) && spec.pkgs == old(spec.pkgs)
    ensures r.Ok? ==>
      && r.value.0 == resolved + {pkg, name(pkg), name(pkg) + "=" + pool[name(pkg)].version}
      && r.value.1 == depends + pool[name(pkg)].depends
      && spec.pkgs == old(spec.pkgs)[name(pkg) := pool[name(pkg)].version]
  {
    var n := name(pkg);
    if n !in pool {
      return Err(Missing(n));
    }
    var version := pool[n].version;
    var deps := pool[n].depends;
    if !check(pkg, version) {
      return Err(VersionError(pkg, version));
    }
    spec.Add(n, version);
    r := Ok((resolved + {pkg, n, n + "=" + version}, depends + deps));
  }

  /** Where a round stands once the declarations in done have been processed. */
  ghost predicate RoundSoFar(pool: Pool, check: (string, string) -> bool, name: string -> string,
                             spec0: map<string, string>, resolved: set<string>, done: set<string>,
                             spec: map<string, string>, res: set<string>, depends: set<string>) {
    && (forall p :: p in done ==> Good(pool, check, name, p))
    && spec == spec0 + Versions(pool, Names(name, done))
    && res == resolved + Marks(pool, name, done)
    && depends == DepsOf(pool, name, done)
  }

  /** Processing one more good declaration keeps the round's account. */
  lemma RoundStep(pool: Pool, check: (string, string) -> bool, name: string -> string,
                  spec0: map<string, string>, resolved: set<string>, done: set<string>,
                  spec: map<string, string>, res: set<string>, depends: set<string>, pkg: string)
    requires RoundSoFar(pool, check, name, spec0, resolved, done, spec, res, depends)
    requires Good(pool, check, name, pkg)
    ensures var n := name(pkg);
      RoundSoFar(pool, check, name, spec0, resolved, done + {pkg},
                 spec[n := pool[n].version],
                 res + {pkg, n, n + "=" + pool[n].version},
                 depends + pool[n].depends)
  {
    MarksStep(pool, name, done, pkg);
    DepsStep(pool, name, done, pkg);
    VersionsStep(pool, spec0, Names(name, done), name(pkg));
  }

  /** Before any declaration is processed, nothing has changed. */
  lemma RoundStart(pool: Pool, check: (string, string) -> bool, name: string -> string,
                   spec0: map<string, string>, resolved: set<string>)
    ensures RoundSoFar(pool, check, name, spec0, resolved, {}, spec0, resolved, {})
  {
    assert Names(name, {}) == {};
    assert Versions(pool, {}) == map[];
    assert Pinned(pool, name, {}) == {};
    assert DepsOf(pool, name, {}) == {};
  }

  /** The inner loop's body: one more declaration processed, the round's account kept. */
  method RoundPackage(spec: Spec, pool: Pool, check: (string, string) -> bool, name: string -> string,
                      ghost spec0: map<string, string>, resolved: set<string>,
                      ghost unresolved: set<string>, ghost todo: set<string>,
                      res: set<string>, depends: set<string>, pkg: string)
    returns (step: Result<(set<string>, set<string>), ResolveError>)
    requires pkg in todo && todo <= unresolved
    requires RoundSoFar(pool, check, name, spec0, resolved, unresolved - todo, spec.pkgs, res, depends)
    modifies spec
    ensures step.Err? ==> !Good(pool, check, name, pkg) && Raised(pool, check, name, step.error)
    ensures step.Ok? ==>
      RoundSoFar(pool, check, name, spec0, resolved, unresolved - (todo - {pkg}), spec.pkgs, step.value.0, step.value.1)
  {
    ghost var before := spec.pkgs;
    step := ResolvePackage(spec, pool, check, name, pkg, res, depends);
    if step.Ok? {
      RoundStep(pool, check, name, spec0, resolved, unresolved - todo, before, res, depends, pkg);
      assert unresolved - (todo - {pkg}) == (unresolved - todo) + {pkg};
    }
  }

  /**
   * One round of `resolve`: every unresolved declaration is processed, in
   * whatever order the set yields them. On success, the spec holds the pool's
   * version of every name processed, `resolved` gains the marks of every
   * declaration, and the next round's work is the collected dependencies
   * minus everything resolved. The round fails iff some declaration is bad.
   */
  method ResolveRound(spec: Spec, pool: Pool, check: (string, string) -> bool, name: string -> string,
                      unresolved: set<string>, resolved: set<string>)
    returns (r: Result<(set<string>, set<string>), ResolveError>)
    modifies spec
    ensures r.Ok? <==> forall p :: p in unresolved ==> Good(pool, check, name, p)
    ensures r.Ok? ==>
      && spec.pkgs == old(spec.pkgs) + Versions(pool, Names(name, unresolved))
      && r.value.0 == resolved + Marks(pool, name, unresolved)
      && r.value.1 == DepsOf(pool, name, unresolved) - r.value.0
    ensures r.Err? ==> Raised(pool, check, name, r.error)
  {
    var todo := unresolved;
    var res := resolved;
    var depends: set<string> := {};
    ghost var spec0 := spec.pkgs;
    RoundStart(pool, check, name, spec0, resolved);
    assert unresolved - todo == {};
    while todo != {}
      invariant todo <= unresolved
      invariant RoundSoFar(pool, check, name, spec0, resolved, unresolved - todo, spec.pkgs, res, depends)
      decreases |todo|
    {
      var pkg :| pkg in todo;
      var step := RoundPackage(spec, pool, check, name, spec0, resolved, unresolved, todo, res, depends, pkg);
      if step.Err? {
        return Err(step.error);
      }
      todo := todo - {pkg};
      res, depends := step.value.0, step.value.1;
    }
    assert unresolved - todo == unresolved;
    r := Ok((res, depends - res));
  }

  /** The spec holds pkg's name at a version pkg's own restriction accepts. */
  ghost predicate Checked(check: (string, string) -> bool, name: string -> string, spec: map<string, string>, pkg: string) {
    name(pkg) in spec && check(pkg, spec[name(pkg)])
  }

  /**
   * Why x may count as resolved: it is a declaration the spec satisfies, a
   * name in the spec, or a name pinned to the version the spec holds.
   */
  ghost predicate Settled(check: (string, string) -> bool, name: string -> string, spec: map<string, string>, x: string) {
    Checked(check, name, spec, x) || x in spec || exists n :: n in spec && x == n + "=" + spec[n]
  }

  /** The spec takes every version from the pool. */
  ghost predicate FromPool(pool: Pool, spec: map<string, string>) {
    forall n :: n in spec ==> n in pool && spec[n] == pool[n].version
  }

  /** What holds between two rounds of `resolve`. */
  ghost predicate Resolving(pool: Pool, check: (string, string) -> bool, name: string -> string, plan: set<string>,
                            spec: map<string, string>, resolved: set<string>, unresolved: set<string>) {
    && FromPool(pool, spec)
    && (forall n, d :: n in spec && d in pool[n].depends ==> d in resolved || d in unresolved)
    && (forall p :: p in plan ==> p in unresolved || Checked(check, name, spec, p))
    && (forall x :: x in resolved ==> Settled(check, name, spec, x))
    && unresolved !! resolved
    && unresolved <= plan + AllDeps(pool)
  }

  /**
   * A finished resolution: every version comes from the pool, every
   * declaration of the plan is satisfied, and every dependency of every
   * package in the spec is settled.
   */
  ghost predicate Resolved(pool: Pool, check: (string, string) -> bool, name: string -> string,
                           plan: set<string>, spec: map<string, string>) {
    && FromPool(pool, spec)
    && (forall p :: p in plan ==> Checked(check, name, spec, p))
    && (forall n, d :: n in spec && d in pool[n].depends ==> Settled(check, name, spec, d))
  }

  /** A round only adds pool versions, so it never changes an entry already in the spec. */
  lemma RoundExtends(pool: Pool, name: string -> string, spec0: map<string, string>, ps: set<string>)
    requires FromPool(pool, spec0)
    ensures var spec1 := spec0 + Versions(pool, Names(name, ps));
      FromPool(pool, spec1) && forall n :: n in spec0 ==> n in spec1 && spec1[n] == spec0[n]
  {
  }

  /** Whatever was settled stays settled when the spec only grows. */
  lemma SettledGrows(check: (string, string) -> bool, name: string -> string,
                     spec0: map<string, string>, spec1: map<string, string>, x: string)
    requires forall n :: n in spec0 ==> n in spec1 && spec1[n] == spec0[n]
    requires Settled(check, name, spec0, x)
    ensures Settled(check, name, spec1, x)
  {
    if !Checked(check, name, spec0, x) && x !in spec0 {
      var n :| n in spec0 && x == n + "=" + spec0[n];
      assert n in spec1 && x == n + "=" + spec1[n];
    }
  }

  /** A good declaration processed in a round is satisfied by the spec after it. */
  lemma RoundChecks(pool: Pool, check: (string, string) -> bool, name: string -> string,
                    spec0: map<string, string>, ps: set<string>, p: string)
    requires p in ps && Good(pool, check, name, p)
    ensures Checked(check, name, spec0 + Versions(pool, Names(name, ps)), p)
    ensures name(p) in Names(name, ps)
  {
  }

  /** The marks a round adds are settled by the spec after it. */
  lemma MarksSettled(pool: Pool, check: (string, string) -> bool, name: string -> string,
                     spec0: map<string, string>, ps: set<string>, x: string)
    requires forall p :: p in ps ==> Good(pool, check, name, p)
    requires x in Marks(pool, name, ps)
    ensures Settled(check, name, spec0 + Versions(pool, Names(name, ps)), x)
  {
    var spec1 := spec0 + Versions(pool, Names(name, ps));
    if x in ps {
      RoundChecks(pool, check, name, spec0, ps, x);
    } else if x in Names(name, ps) {
      assert x in spec1;
    } else {
      var p :| p in ps && name(p) in pool && x == name(p) + "=" + pool[name(p)].version;
      RoundChecks(pool, check, name, spec0, ps, p);
      assert name(p) in spec1 && x == name(p) + "=" + spec1[name(p)];
    }
  }

  /** A dependency of a package named in a round is collected by that round. */
  lemma DepCollected(pool: Pool, name: string -> string, ps: set<string>, n: string, d: string)
    requires n in Names(name, ps) && n in pool && d in pool[n].depends
    ensures d in DepsOf(pool, name, ps)
  {
  }

  /** One successful round keeps what holds between rounds. */
  lemma RoundKeeps(pool: Pool, check: (string, string) -> bool, name: string -> string, plan: set<string>,
                   spec0: map<string, string>, resolved: set<string>, unresolved: set<string>,
                   spec1: map<string, string>, resolved1: set<string>, next: set<string>)
    requires Resolving(pool, check, name, plan, spec0, resolved, unresolved)
    requires forall p :: p in unresolved ==> Good(pool, check, name, p)
    requires spec1 == spec0 + Versions(pool, Names(name, unresolved))
    requires resolved1 == resolved + Marks(pool, name, unresolved)
    requires next == DepsOf(pool, name, unresolved) - resolved1
    ensures Resolving(pool, check, name, plan, spec1, resolved1, next)
  {
    RoundExtends(pool, name, spec0, unresolved);
    forall n, d | n in spec1 && d in pool[n].depends
      ensures d in resolved1 || d in next
    {
      if n !in spec0 {
        DepCollected(pool, name, unresolved, n, d);
      }
    }
    forall p | p in plan
      ensures p in next || Checked(check, name, spec1, p)
    {
      if p in unresolved {
        RoundChecks(pool, check, name, spec0, unresolved, p);
      }
    }
    forall x | x in resolved1
      ensures Settled(check, name, spec1, x)
    {
      if x in resolved {
        SettledGrows(check, name, spec0, spec1, x);
      } else {
        MarksSettled(pool, check, name, spec0, unresolved, x);
      }
    }
    DepsWithin(pool, name, unresolved);
  }

  /** A round with work to do resolves something new, out of a finite universe. */
  lemma RoundShrinks(universe: set<string>, resolved: set<string>, unresolved: set<string>, resolved1: set<string>)
    requires unresolved != {} && unresolved <= universe && unresolved !! resolved
    requires resolved + unresolved <= resolved1
    ensures |universe - resolved1| < |universe - resolved|
  {
    var p :| p in unresolved;
    assert universe - resolved1 <= (universe - resolved) - {p};
    SubsetCard(universe - resolved1, (universe - resolved) - {p});
  }

  lemma {:induction false} SubsetCard(a: set<string>, b: set<string>)
    requires a <= b
    ensures |a| <= |b|
    decreases |a|
  {
    if a != {} {
      var x :| x in a;
      SubsetCard(a - {x}, b - {x});
    }
  }

  /** With nothing left unresolved, what held between rounds is a finished resolution. */
  lemma ResolvingDone(pool: Pool, check: (string, string) -> bool, name: string -> string, plan: set<string>,
                      spec: map<string, string>, resolved: set<string>)
    requires Resolving(pool, check, name, plan, spec, resolved, {})
    ensures Resolved(pool, check, name, plan, spec)
  {
  }

  /**
   * `resolve`: rounds until nothing is unresolved. It either raises for a
   * package the pool lacks or a version a declaration refuses, or returns a
   * spec that resolves the plan and every dependency of what it holds.
   */
  method Resolve(plan: set<string>, pool: Pool, check: (string, string) -> bool) returns (r: Result<Spec, ResolveError>)
    ensures r.Ok? ==> Resolved(pool, check, NameOf, plan, r.value.pkgs)
    ensures r.Err? ==> Raised(pool, check, NameOf, r.error)
  {
    var spec := new Spec();
    var resolved: set<string> := {};
    var unresolved := plan;
    ghost var universe := plan + AllDeps(pool);
    while unresolved != {}
      invariant Resolving(pool, check, NameOf, plan, spec.pkgs, resolved, unresolved)
      decreases |universe - resolved|
    {
      ghost var spec0 := spec.pkgs;
      var round := ResolveRound(spec, pool, check, NameOf, unresolved, resolved);
      if round.Err? {
        return Err(round.error);
      }
      RoundKeeps(pool, check, NameOf, plan, spec0, resolved, unresolved, spec.pkgs, round.value.0, round.value.1);
      RoundShrinks(universe, resolved, unresolved, round.value.0);
      resolved, unresolved := round.value.0, round.value.1;
    }
    ResolvingDone(pool, check, NameOf, plan, spec.pkgs, resolved);
    r := Ok(spec);
  }
}
