/**
 * fablib/plan.py around the dependency parser: package origins, the spec,
 * the plan and the dependency-resolution loop.
 *
 * A Python set of Dependency objects compares them by name only, so such a
 * set is modelled as a map from name to the instance it holds; `set.add`
 * and `|=` keep the instance already present.
 */
module FabPlan {
  import opened Wrappers
  import opened Text
  import opened FabDependency
  import PlanText

  // ---------------------------------------------------------------------
  // PackageOrigins

  /** `name.split("=")[0].strip("*")`: the key an origin is recorded under. */
  function OriginKey(name: string): string {
    TrimRight(TrimLeft(Before(name, '='), IsStar), IsStar)
  }

  /** A plain package name is its own key. */
  lemma OriginKeyOfName(name: string)
    requires IsName(name)
    ensures OriginKey(name) == name
  {
    assert '=' !in name by {
      assert forall i :: 0 <= i < |name| ==> IsNameChar(name[i]);
    }
    TrimLeftIdem(name, IsStar);
    assert !IsStar(name[|name| - 1]);
  }

  /** The origins recorded for a key so far, none when it has no entry. */
  function OriginsOf(origins: map<string, seq<string>>, key: string): seq<string> {
    if key in origins then origins[key] else []
  }

  /** Append-only multimap from package name to the packages that pulled it in. */
  class PackageOrigins {
    var origins: map<string, seq<string>>

    /** Every recorded key has at least one origin. */
    ghost predicate Valid()
      reads this
    {
      forall k :: k in origins ==> origins[k] != []
    }

    constructor()
      ensures origins == map[] && Valid()
    {
      origins := map[];
    }

    /** Appends an origin under the key of `name`, creating the entry if needed. */
    method Add(name: string, origin: string)
      requires Valid()
      modifies this
      ensures Valid()
      ensures origins == old(origins)[OriginKey(name) := OriginsOf(old(origins), OriginKey(name)) + [origin]]
    {
      var key := OriginKey(name);
      if key !in origins {
        origins := origins[key := []];
      }
      origins := origins[key := origins[key] + [origin]];
    }

    /** One `add` per name, all with the same origin, in any order. */
    method AddAll(names: set<string>, origin: string)
      requires Valid() && forall n :: n in names ==> IsName(n)
      modifies this
      ensures Valid()
      ensures origins == WithOrigins(old(origins), names, origin)
    {
      var todo := names;
      while todo != {}
        invariant todo <= names
        invariant Valid()
        invariant forall k :: k in origins <==> k in old(origins) || (k in names && k !in todo)
        invariant forall k :: k in origins ==>
          origins[k] == if k in names && k !in todo then OriginsOf(old(origins), k) + [origin] else old(origins)[k]
        decreases |todo|
      {
        var n :| n in todo;
        OriginKeyOfName(n);
        Add(n, origin);
        todo := todo - {n};
      }
      RecordedEach(old(origins), names, origin, origins);
    }

    /** `__getitem__`: the origins of a key, or None where Python raises KeyError. */
    function Get(name: string): (r: Option<seq<string>>)
      reads this
      ensures r.Some? <==> name in origins
      ensures r.Some? ==> r.value == OriginsOf(origins, name)
    {
      if name in origins then Some(origins[name]) else None
    }
  }

  /** Two records under names with the same key land in the same list, in call order. */
  lemma OriginsInCallOrder(o: PackageOrigins, a: string, b: string, x: string, y: string)
    requires o.Valid() && OriginKey(a) == OriginKey(b)
    ensures var o1 := o.origins[OriginKey(a) := OriginsOf(o.origins, OriginKey(a)) + [x]];
      var o2 := o1[OriginKey(b) := OriginsOf(o1, OriginKey(b)) + [y]];
      OriginsOf(o2, OriginKey(a)) == OriginsOf(o.origins, OriginKey(a)) + [x, y]
  {
  }

  // ---------------------------------------------------------------------
  // Spec

  /** A resolved spec: package name to version, in insertion order. */
  class Spec {
    var pkgs: map<string, string>
    /** The keys of pkgs in the order they were first added (a dict's order). */
    var names: seq<string>

    ghost predicate Valid()
      reads this
    {
      Distinct(names) && (forall n :: n in pkgs <==> n in names)
    }

    constructor()
      ensures pkgs == map[] && names == [] && Valid()
    {
      pkgs := map[];
      names := [];
    }

    /** add: a new name goes last, an existing one keeps its place and gets the new version. */
    method Add(name: string, version: string)
      requires Valid()
      modifies this
      ensures Valid()
      ensures pkgs == old(pkgs)[name := version]
      ensures names == if name in old(pkgs) then old(names) else old(names) + [name]
    {
      if name !in pkgs {
        names := names + [name];
      }
      pkgs := pkgs[name := version];
    }

    /** remove: `del`, which raises KeyError for a name that is not there (found is false). */
    method Remove(name: string) returns (found: bool)
      requires Valid()
      modifies this
      ensures Valid()
      ensures found <==> name in old(pkgs)
      ensures pkgs == old(pkgs) - {name}
      ensures names == Without(old(names), name)
    {
      found := name in pkgs;
      if !found {
        WithoutAbsent(names, name);
      } else {
        WithoutKeeps(names, name);
        pkgs := pkgs - {name};
        names := Without(names, name);
      }
    }

    /** `__iter__`: one `name=version` per entry, in order. */
    function Entries(): (entries: seq<string>)
      reads this
      requires Valid()
      ensures |entries| == |names|
    {
      var ns := names;
      var ps := pkgs;
      seq(|ns|, i requires 0 <= i < |ns| && ns[i] in ps => ns[i] + "=" + ps[ns[i]])
    }

    /** `__str__`: the names alone, one per line. */
    function Text(): string
      reads this
    {
      Join(names, "\n")
    }

    /** Split at its newlines, `__str__` gives back the names and nothing of their versions. */
    lemma TextNamesOnly()
      requires Valid() && names != []
      requires forall i :: 0 <= i < |names| ==> '\n' !in names[i]
      ensures Split(Text(), '\n') == names
    {
      SplitJoin(names, '\n');
    }

    function Exists(key: string): (b: bool)
      reads this
      requires Valid()
      ensures b <==> key in names
    {
      key in pkgs
    }
  }

  /** The sequence without one value. */
  function Without(names: seq<string>, name: string): (r: seq<string>)
    ensures name !in r
    ensures forall n :: n in r <==> n in names && n != name
    decreases |names|
  {
    if names == [] then []
    else if names[0] == name then Without(names[1..], name)
    else [names[0]] + Without(names[1..], name)
  }

  lemma {:induction false} WithoutAbsent(names: seq<string>, name: string)
    requires name !in names
    ensures Without(names, name) == names
    decreases |names|
  {
    if names != [] {
      WithoutAbsent(names[1..], name);
      assert [names[0]] + names[1..] == names;
    }
  }

  /** No value occurs twice. */
  predicate Distinct(names: seq<string>) {
    forall i, j :: 0 <= i < j < |names| ==> names[i] != names[j]
  }

  lemma {:induction false} WithoutKeeps(names: seq<string>, name: string)
    requires Distinct(names)
    ensures Distinct(Without(names, name))
    decreases |names|
  {
    if names != [] {
      var tail := names[1..];
      assert Distinct(tail) by {
        forall i, j | 0 <= i < j < |tail|
          ensures tail[i] != tail[j]
        {
          assert tail[i] == names[i + 1] && tail[j] == names[j + 1];
        }
      }
      WithoutKeeps(tail, name);
      if names[0] != name {
        var w := Without(tail, name);
        assert names[0] !in w by {
          forall j | 0 <= j < |tail|
            ensures tail[j] != names[0]
          {
            assert tail[j] == names[j + 1];
            assert names[0] != names[j + 1];
          }
        }
        assert names[0] !in tail;
        var r := [names[0]] + w;
        forall i, j | 0 <= i < j < |r|
          ensures r[i] != r[j]
        {
          assert r[j] == w[j - 1] && w[j - 1] in w;
          if i > 0 {
            assert r[i] == w[i - 1];
          }
        }
        assert Without(names, name) == r;
      } else {
        assert Without(names, name) == Without(tail, name);
      }
    }
  }

  /**
   * Each entry of `__iter__` is a name of the spec, `=`, and its version; a
   * name without `=` is recovered as the text before the first `=`.
   */
  lemma EntryOf(spec: Spec, i: nat)
    requires spec.Valid() && i < |spec.names| && '=' !in spec.names[i]
    ensures spec.Entries()[i] == spec.names[i] + "=" + spec.pkgs[spec.names[i]]
    ensures Before(spec.Entries()[i], '=') == spec.names[i]
  {
    var e := spec.Entries()[i];
    var n := spec.names[i];
    assert e[|n|] == '=' && e[..|n|] == n;
    FindFirst(e, '=', |n|);
  }

  // ---------------------------------------------------------------------
  // Control records and comma-separated fields

  /** A control record of a package: field name to value. */
  type Control = map<string, string>

  /** `pkg_control.get(field)` */
  function Get(control: Control, field: string): Option<string> {
    if field in control then Some(control[field]) else None
  }

  function StripAll(parts: seq<string>): (r: seq<string>)
    ensures |r| == |parts|
    ensures forall i :: 0 <= i < |r| ==> r[i] == Strip(parts[i], Unicode)
  {
    seq(|parts|, i requires 0 <= i < |parts| => Strip(parts[i], Unicode))
  }

  /**
   * `re.split(r"\s*,\s*", value.strip())` for a present, non-blank value and
   * `[]` otherwise: the comma-separated items with the whitespace around
   * each comma removed.
   */
  function FieldItems(value: Option<string>): (items: seq<string>)
    ensures value.None? || AllSpace(value.value, Unicode) ==> items == []
  {
    match value
    case None => []
    case Some(v) =>
      StripEnds(v, Unicode);
      if Strip(v, Unicode) == [] then [] else StripAll(Split(Strip(v, Unicode), ','))
  }

  /** The raw clauses of the given fields, field after field. */
  function RawDepends(control: Control, fields: seq<string>): seq<string>
    decreases |fields|
  {
    if fields == [] then []
    else RawDepends(control, fields[..|fields| - 1]) + FieldItems(Get(control, fields[|fields| - 1]))
  }

  /** `_get_provided`: the items of the Provides field. */
  function Provided(control: Control): set<string> {
    set p | p in FieldItems(Get(control, "Provides"))
  }

  // ---------------------------------------------------------------------
  // Sets of dependencies, compared by name

  /** Every dependency is stored under its own name. */
  predicate Keyed(deps: map<string, Dependency>) {
    forall n :: n in deps ==> deps[n].name == n
  }

  /** Every key is a package name as the clause grammar accepts it. */
  predicate Named(deps: map<string, Dependency>) {
    forall n :: n in deps ==> IsName(n)
  }

  /** `deps.add(d)`: a dependency of the same name already present stays. */
  function AddDep(deps: map<string, Dependency>, d: Dependency): (r: map<string, Dependency>)
    ensures r.Keys == deps.Keys + {d.name}
    ensures forall n :: n in deps ==> r[n] == deps[n]
    ensures Keyed(deps) ==> Keyed(r)
  {
    if d.name in deps then deps else deps[d.name := d]
  }

  /** `a | b`: the instances of `a` win. */
  function UnionDeps(a: map<string, Dependency>, b: map<string, Dependency>): (r: map<string, Dependency>)
    ensures r.Keys == a.Keys + b.Keys
    ensures forall n :: n in a ==> r[n] == a[n]
    ensures Keyed(a) && Keyed(b) ==> Keyed(r)
    ensures Named(a) && Named(b) ==> Named(r)
  {
    b + a
  }

  // ---------------------------------------------------------------------
  // _get_new_deps

  /** `[Dependency(alt) for alt in alts]`: the first failure is raised. */
  function ParseAll(alts: seq<string>): (r: Result<seq<Dependency>, DepError>)
    ensures r.Ok? ==> |r.value| == |alts|
    decreases |alts|
  {
    if alts == [] then Ok([])
    else
      match ParseDependency(alts[0])
      case Err(e) => Err(e)
      case Ok(d) =>
        match ParseAll(alts[1..])
        case Err(e) => Err(e)
        case Ok(ds) => Ok([d] + ds)
  }

  /** A group that parses holds each alternative's own dependency, in order. */
  lemma {:induction false} ParseAllOk(alts: seq<string>)
    requires ParseAll(alts).Ok?
    ensures forall i :: 0 <= i < |alts| ==> ParseDependency(alts[i]) == Ok(ParseAll(alts).value[i])
    decreases |alts|
  {
    if alts != [] {
      ParseAllOk(alts[1..]);
      var ds := ParseAll(alts).value;
      assert ds[1..] == ParseAll(alts[1..]).value;
      forall i | 1 <= i < |alts|
        ensures ParseDependency(alts[i]) == Ok(ds[i])
      {
        assert alts[i] == alts[1..][i - 1] && ds[i] == ds[1..][i - 1];
      }
    }
  }

  /** A group that fails raises the error of its first alternative that fails. */
  lemma {:induction false} ParseAllErr(alts: seq<string>)
    requires ParseAll(alts).Err?
    ensures exists i ::
              0 <= i < |alts| && ParseDependency(alts[i]) == Err(ParseAll(alts).error)
              && forall j :: 0 <= j < i ==> ParseDependency(alts[j]).Ok?
    decreases |alts|
  {
    var e := ParseAll(alts).error;
    if ParseDependency(alts[0]).Err? {
      assert ParseDependency(alts[0]) == Err(e);
    } else {
      var tail := alts[1..];
      ParseAllErr(tail);
      var i :| 0 <= i < |tail| && ParseDependency(tail[i]) == Err(e)
        && forall j :: 0 <= j < i ==> ParseDependency(tail[j]).Ok?;
      assert alts[i + 1] == tail[i];
      forall j | 1 <= j < i + 1
        ensures ParseDependency(alts[j]).Ok?
      {
        assert alts[j] == tail[j - 1];
      }
    }
  }

  /** The position of the first alternative from `i` on that the pool knows by name, if any. */
  function FirstKnown(alts: seq<Dependency>, known: set<string>, i: nat): (r: Option<nat>)
    requires i <= |alts|
    ensures r.Some? ==> i <= r.value < |alts| && alts[r.value].name in known
    ensures forall j :: i <= j < |alts| && (r.None? || j < r.value) ==> alts[j].name !in known
    decreases |alts| - i
  {
    if i == |alts| then None
    else if alts[i].name in known then Some(i)
    else FirstKnown(alts, known, i + 1)
  }

  /** Whether some alternative is already among the old dependencies. */
  predicate AnyOld(alts: seq<Dependency>, old_deps: map<string, Dependency>) {
    exists i :: 0 <= i < |alts| && alts[i].name in old_deps
  }

  /**
   * A raw clause as `_get_new_deps` parses it: a single dependency, or an
   * alternative group (it contains `|`) parsed alternative by alternative.
   */
  datatype ParsedClause =
    | Single(dep: Result<Dependency, DepError>)
    | Group(alts: Result<seq<Dependency>, DepError>)

  function Parsed(raw: string): (c: ParsedClause)
    ensures c.Single? <==> '|' !in raw
  {
    if '|' !in raw then Single(ParseDependency(raw)) else Group(ParseAll(Split(raw, '|')))
  }

  /** The raw clauses, parsed one by one. */
  function ParsedAll(raws: seq<string>): (cs: seq<ParsedClause>)
    ensures |cs| == |raws|
    decreases |raws|
  {
    if raws == [] then [] else ParsedAll(raws[..|raws| - 1]) + [Parsed(raws[|raws| - 1])]
  }

  lemma {:induction false} ParsedAllAt(raws: seq<string>, i: nat)
    requires i < |raws|
    ensures ParsedAll(raws)[i] == Parsed(raws[i])
    decreases |raws|
  {
    if i < |raws| - 1 {
      var prefix := raws[..|raws| - 1];
      ParsedAllAt(prefix, i);
      assert prefix[i] == raws[i];
    }
  }

  /** Every dependency a parsed clause holds carries a valid package name. */
  predicate NamedClause(c: ParsedClause) {
    match c
    case Single(d) => d.Ok? ==> IsName(d.value.name)
    case Group(alts) => alts.Ok? ==> forall i :: 0 <= i < |alts.value| ==> IsName(alts.value[i].name)
  }

  predicate AllNamed(cs: seq<ParsedClause>) {
    forall i :: 0 <= i < |cs| ==> NamedClause(cs[i])
  }

  lemma ParsedNamed(raws: seq<string>)
    ensures AllNamed(ParsedAll(raws))
  {
    forall i | 0 <= i < |raws|
      ensures NamedClause(ParsedAll(raws)[i])
    {
      ParsedAllAt(raws, i);
      var raw := raws[i];
      if '|' in raw {
        var alts := ParseAll(Split(raw, '|'));
        if alts.Ok? {
          ParseAllOk(Split(raw, '|'));
          forall j | 0 <= j < |alts.value|
            ensures IsName(alts.value[j].name)
          {
            assert ParseDependency(Split(raw, '|')[j]) == Ok(alts.value[j]);
          }
        }
      }
    }
  }

  /**
   * One clause: a single dependency is added; an alternative group adds
   * nothing when one of its alternatives is already an old dependency, and
   * otherwise its first alternative the pool knows. A parse failure is raised.
   */
  function ClauseStep(acc: map<string, Dependency>, c: ParsedClause, old_deps: map<string, Dependency>, known: set<string>)
    : (r: Result<map<string, Dependency>, DepError>)
    ensures r.Ok? ==> acc.Keys <= r.value.Keys
    ensures r.Ok? && Keyed(acc) ==> Keyed(r.value)
    ensures r.Ok? && Named(acc) && NamedClause(c) ==> Named(r.value)
  {
    match c
    case Single(d) =>
      if d.Err? then Err(d.error) else Ok(AddDep(acc, d.value))
    case Group(alternatives) =>
      if alternatives.Err? then Err(alternatives.error)
      else
        var alts := alternatives.value;
        if AnyOld(alts, old_deps) then Ok(acc)
        else
          match FirstKnown(alts, known, 0)
          case None => Ok(acc)
          case Some(k) => Ok(AddDep(acc, alts[k]))
  }

  /** The new dependencies of a sequence of clauses, clause after clause. */
  function NewDepsOf(cs: seq<ParsedClause>, old_deps: map<string, Dependency>, known: set<string>)
    : (r: Result<map<string, Dependency>, DepError>)
    ensures r.Ok? ==> Keyed(r.value)
    ensures r.Ok? && AllNamed(cs) ==> Named(r.value)
    decreases |cs|
  {
    if cs == [] then Ok(map[])
    else
      match NewDepsOf(cs[..|cs| - 1], old_deps, known)
      case Err(e) => Err(e)
      case Ok(acc) => ClauseStep(acc, cs[|cs| - 1], old_deps, known)
  }

  lemma NewDepsStep(cs: seq<ParsedClause>, i: nat, old_deps: map<string, Dependency>, known: set<string>)
    requires i < |cs|
    ensures var prev := NewDepsOf(cs[..i], old_deps, known);
      NewDepsOf(cs[..i + 1], old_deps, known)
        == if prev.Err? then Err(prev.error) else ClauseStep(prev.value, cs[i], old_deps, known)
  {
    assert cs[..i + 1][..i] == cs[..i];
  }

  /**
   * Whatever else happens, a single clause always parses and its name is
   * among the new dependencies.
   */
  lemma {:induction false} SingleAdded(cs: seq<ParsedClause>, old_deps: map<string, Dependency>, known: set<string>, i: nat)
    requires i < |cs| && cs[i].Single?
    requires NewDepsOf(cs, old_deps, known).Ok?
    ensures cs[i].dep.Ok?
    ensures cs[i].dep.value.name in NewDepsOf(cs, old_deps, known).value
    decreases |cs|
  {
    var prefix := cs[..|cs| - 1];
    if i < |cs| - 1 {
      assert prefix[i] == cs[i];
      SingleAdded(prefix, old_deps, known, i);
    }
  }

  /** The same, for the raw clauses: a clause without `|` is always a new dependency by name. */
  lemma SimpleClauseAdded(raws: seq<string>, old_deps: map<string, Dependency>, known: set<string>, i: nat)
    requires i < |raws| && '|' !in raws[i]
    requires NewDepsOf(ParsedAll(raws), old_deps, known).Ok?
    ensures ParseDependency(raws[i]).Ok?
    ensures ParseDependency(raws[i]).value.name in NewDepsOf(ParsedAll(raws), old_deps, known).value
  {
    ParsedAllAt(raws, i);
    SingleAdded(ParsedAll(raws), old_deps, known, i);
  }

  /** An alternative group one of whose alternatives is already old adds nothing. */
  lemma GroupWithOldAlternative(acc: map<string, Dependency>, alts: seq<Dependency>, old_deps: map<string, Dependency>, known: set<string>, j: nat)
    requires j < |alts| && alts[j].name in old_deps
    ensures ClauseStep(acc, Group(Ok(alts)), old_deps, known) == Ok(acc)
  {
  }

  /**
   * Otherwise the group adds its first alternative the pool knows, ahead of
   * every later one.
   */
  lemma GroupChoice(acc: map<string, Dependency>, alts: seq<Dependency>, old_deps: map<string, Dependency>, known: set<string>, k: nat)
    requires !AnyOld(alts, old_deps) && k < |alts| && alts[k].name in known
    requires forall j :: 0 <= j < k ==> alts[j].name !in known
    ensures ClauseStep(acc, Group(Ok(alts)), old_deps, known) == Ok(AddDep(acc, alts[k]))
  {
    assert FirstKnown(alts, known, 0) == Some(k);
  }

  /** A group none of whose alternatives the pool knows adds nothing. */
  lemma GroupNoneKnown(acc: map<string, Dependency>, alts: seq<Dependency>, old_deps: map<string, Dependency>, known: set<string>)
    requires forall j :: 0 <= j < |alts| ==> alts[j].name !in known
    ensures ClauseStep(acc, Group(Ok(alts)), old_deps, known) == Ok(acc)
  {
  }

  /** Any clause that fails to parse makes the whole call fail. */
  lemma {:induction false} BadClauseFails(cs: seq<ParsedClause>, old_deps: map<string, Dependency>, known: set<string>, i: nat)
    requires i < |cs| && ((cs[i].Single? && cs[i].dep.Err?) || (cs[i].Group? && cs[i].alts.Err?))
    ensures NewDepsOf(cs, old_deps, known).Err?
    decreases |cs|
  {
    var prefix := cs[..|cs| - 1];
    if i < |cs| - 1 {
      assert prefix[i] == cs[i];
      BadClauseFails(prefix, old_deps, known, i);
    }
  }

  /** Each origin list grows by the declaring package, for each new dependency. */
  function WithOrigins(origins: map<string, seq<string>>, names: set<string>, origin: string): (r: map<string, seq<string>>)
    ensures r.Keys == origins.Keys + names
  {
    map k | k in origins.Keys + names :: if k in names then OriginsOf(origins, k) + [origin] else origins[k]
  }

  /**
   * The pool as resolution sees it: the newest control record per request
   * (a name, or `name=version` for a pinned one), the names its `exists`
   * reports, and the version comparison.
   */
  datatype Pool = Pool(controls: map<string, Control>, known: set<string>, compare: (string, string) -> int)

  datatype PlanError =
    | DepFailure(error: DepError)  // Error raised while parsing a dependency
    | NoPackageField               // the control record has no Package to record as origin
    | NoVersionField               // the control record has no Version (KeyError)
    | Incompatible(dep: string, version: string)  // the newest pool version fails the restriction
    | Unbound                      // all_missing read before assignment

  function Lift<T>(r: Result<T, DepError>): Result<T, PlanError> {
    match r
    case Ok(v) => Ok(v)
    case Err(e) => Err(DepFailure(e))
  }

  /** Once a prefix of the clauses fails, the whole call fails with that error. */
  lemma {:induction false} FailurePersists(cs: seq<ParsedClause>, i: nat, old_deps: map<string, Dependency>, known: set<string>)
    requires i <= |cs| && NewDepsOf(cs[..i], old_deps, known).Err?
    ensures NewDepsOf(cs, old_deps, known) == NewDepsOf(cs[..i], old_deps, known)
    decreases |cs| - i
  {
    if i < |cs| {
      NewDepsStep(cs, i, old_deps, known);
      FailurePersists(cs, i + 1, old_deps, known);
    } else {
      assert cs[..i] == cs;
    }
  }

  /** A map that agrees with WithOrigins key by key is WithOrigins. */
  lemma RecordedEach(origins: map<string, seq<string>>, names: set<string>, origin: string, r: map<string, seq<string>>)
    requires forall k :: k in r <==> k in origins || k in names
    requires forall k :: k in r ==> r[k] == if k in names then OriginsOf(origins, k) + [origin] else origins[k]
    ensures r == WithOrigins(origins, names, origin)
  {
  }

  /** The result of `_get_new_deps` as a whole, and the origin each new dependency gets. */
  function NewDepsResult(control: Control, old_deps: map<string, Dependency>, fields: seq<string>, known: set<string>)
    : Result<map<string, Dependency>, PlanError>
  {
    match NewDepsOf(ParsedAll(RawDepends(control, fields)), old_deps, known)
    case Err(e) => Err(DepFailure(e))
    case Ok(deps) => if deps != map[] && "Package" !in control then Err(NoPackageField) else Ok(deps)
  }

  /** `reformat2dep`: a `name=version` plan entry as the clause `name (= version)`. */
  function Reformat(pkg: string): string {
    if '=' !in pkg then pkg
    else
      var name := Before(pkg, '=');
      name + " (= " + pkg[|name| + 1..] + ")"
  }

  lemma ReformatText(name: string, version: string)
    requires IsName(name)
    ensures Reformat(name + "=" + version) == name + " (= " + version + ")"
  {
    assert '=' !in name by {
      assert forall i :: 0 <= i < |name| ==> IsNameChar(name[i]);
    }
    BeforeFirst(name, '=', version);
  }

  lemma PinnedClause(name: string, version: string)
    ensures ClauseText(name, 0, Some(Restrict(Exactly, version))) == name + " (= " + version + ")"
  {
    var suffix := " (= " + version + ")";
    assert RestrictSuffix(Some(Restrict(Exactly, version))) == suffix;
    assert Repeat('*', 0) + suffix == suffix;
  }

  /**
   * A pinned plan entry turns into an `=` restriction, which `format_dep`
   * turns back into the same request.
   */
  lemma ReformatPinned(name: string, version: string)
    requires IsName(name) && IsVersion(version)
    ensures ParseDependency(Reformat(name + "=" + version))
      == Ok(Dependency(name, BaseFields, Some(Restrict(Exactly, version))))
    ensures FormatDep(ParseDependency(Reformat(name + "=" + version)).value) == name + "=" + version
  {
    var rs := Some(Restrict(Exactly, version));
    ReformatText(name, version);
    PinnedClause(name, version);
    ParseRender(name, 0, rs);
  }

  /** A plan entry without `=` is parsed as it is. */
  lemma ReformatPlain(pkg: string)
    requires '=' !in pkg
    ensures Reformat(pkg) == pkg
  {
  }

  /** The raw clauses of the dependency fields, collected field by field. */
  method CollectRaw(control: Control, fields: seq<string>) returns (raws: seq<string>)
    ensures raws == RawDepends(control, fields)
  {
    raws := [];
    var f := 0;
    while f < |fields|
      invariant 0 <= f <= |fields|
      invariant raws == RawDepends(control, fields[..f])
    {
      assert fields[..f + 1][..f] == fields[..f];
      raws := raws + FieldItems(Get(control, fields[f]));
      f := f + 1;
    }
    assert fields[..|fields|] == fields;
  }

  /** The loop over the alternatives of a group: the first one the pool knows. */
  method ChooseAlternative(alts: seq<Dependency>, known: set<string>) returns (choice: Option<nat>)
    ensures choice == FirstKnown(alts, known, 0)
  {
    var k := 0;
    while k < |alts|
      invariant 0 <= k <= |alts|
      invariant FirstKnown(alts, known, 0) == FirstKnown(alts, known, k)
    {
      if alts[k].name in known {
        return Some(k);
      }
      k := k + 1;
    }
    return None;
  }

  /** Parses the raw clauses one by one. */
  method ParseClauses(raws: seq<string>) returns (cs: seq<ParsedClause>)
    ensures cs == ParsedAll(raws)
  {
    cs := [];
    var i := 0;
    while i < |raws|
      invariant 0 <= i <= |raws|
      invariant cs == ParsedAll(raws[..i])
    {
      assert raws[..i + 1][..i] == raws[..i];
      cs := cs + [Parsed(raws[i])];
      i := i + 1;
    }
    assert raws[..|raws|] == raws;
  }

  /** The body of the loop of `_get_new_deps`, for one clause. */
  method AddClause(new_deps: map<string, Dependency>, c: ParsedClause, old_deps: map<string, Dependency>, known: set<string>)
    returns (r: Result<map<string, Dependency>, DepError>)
    ensures r == ClauseStep(new_deps, c, old_deps, known)
  {
    match c
    case Single(d) =>
      if d.Err? {
        return Err(d.error);
      }
      return Ok(AddDep(new_deps, d.value));
    case Group(alternatives) =>
      if alternatives.Err? {
        return Err(alternatives.error);
      }
      var alts := alternatives.value;
      if AnyOld(alts, old_deps) {
        return Ok(new_deps);
      }
      var choice := ChooseAlternative(alts, known);
      if choice.None? {
        return Ok(new_deps);
      }
      return Ok(AddDep(new_deps, alts[choice.value]));
  }

  /** The loop over the parsed clauses of `_get_new_deps`: the first failure is raised. */
  method SelectNewDeps(cs: seq<ParsedClause>, old_deps: map<string, Dependency>, known: set<string>)
    returns (r: Result<map<string, Dependency>, DepError>)
    ensures r == NewDepsOf(cs, old_deps, known)
  {
    var new_deps: map<string, Dependency> := map[];
    var i := 0;
    while i < |cs|
      invariant 0 <= i <= |cs|
      invariant NewDepsOf(cs[..i], old_deps, known) == Ok(new_deps)
    {
      NewDepsStep(cs, i, old_deps, known);
      var step := AddClause(new_deps, cs[i], old_deps, known);
      if step.Err? {
        FailurePersists(cs, i + 1, old_deps, known);
        return step;
      }
      new_deps := step.value;
      i := i + 1;
    }
    assert cs[..|cs|] == cs;
    return Ok(new_deps);
  }

  // ---------------------------------------------------------------------
  // resolve

  /** The control record the pool serves for a dependency's request, if any. */
  function Fetch(pool: Pool, dep: Dependency): (c: Option<Control>)
    ensures c.Some? <==> FormatDep(dep) in pool.controls
  {
    if FormatDep(dep) in pool.controls then Some(pool.controls[FormatDep(dep)]) else None
  }

  /** The names the pool can serve: the name part of each request it answers. */
  ghost function PoolNames(pool: Pool): set<string> {
    set k | k in pool.controls :: Before(k, '=')
  }

  /** The pool serves the dependency, at this version, and the version satisfies its restriction. */
  ghost predicate Served(pool: Pool, dep: Dependency, version: string) {
    var c := Fetch(pool, dep);
    c.Some? && "Version" in c.value && c.value["Version"] == version
    && IsVersionOk(dep, version, pool.compare)
  }

  /** The names of the clauses without alternatives that parse. */
  ghost function SimpleNames(cs: seq<ParsedClause>): set<string>
    decreases |cs|
  {
    if cs == [] then {}
    else
      var last := cs[|cs| - 1];
      SimpleNames(cs[..|cs| - 1]) + if last.Single? && last.dep.Ok? then {last.dep.value.name} else {}
  }

  /** The names a served dependency requires without alternatives. */
  ghost function SimpleDeps(pool: Pool, dep: Dependency): set<string> {
    match Fetch(pool, dep)
    case None => {}
    case Some(c) => SimpleNames(ParsedAll(RawDepends(c, dep.fields)))
  }

  /** The alternative groups of a served dependency that the pool knows an alternative of. */
  ghost function GroupDeps(pool: Pool, dep: Dependency): set<set<string>> {
    match Fetch(pool, dep)
    case None => {}
    case Some(c) => KnownGroups(ParsedAll(RawDepends(c, dep.fields)), pool.known)
  }

  /**
   * The names a served dependency can bring in: those of its clauses without
   * alternatives, and each group's first alternative the pool knows.
   */
  ghost function Requested(pool: Pool, dep: Dependency): set<string> {
    match Fetch(pool, dep)
    case None => {}
    case Some(c) => RequestedNames(ParsedAll(RawDepends(c, dep.fields)), pool.known)
  }

  /** Every recorded miss is a dependency of that name whose request the pool does not serve. */
  ghost predicate Missed(pool: Pool, missing: map<string, Dependency>) {
    forall n :: n in missing ==> missing[n].name == n && Fetch(pool, missing[n]).None?
  }

  /** A successful `_get_new_deps` holds every clause without alternatives. */
  lemma {:induction false} SimpleNamesAdded(cs: seq<ParsedClause>, old_deps: map<string, Dependency>, known: set<string>)
    requires NewDepsOf(cs, old_deps, known).Ok?
    ensures forall m :: m in SimpleNames(cs) ==> m in NewDepsOf(cs, old_deps, known).value
    decreases |cs|
  {
    if cs != [] {
      SimpleNamesAdded(cs[..|cs| - 1], old_deps, known);
    }
  }

  /** The names of a group's alternatives. */
  function AltNames(alts: seq<Dependency>): (names: set<string>)
    ensures forall i :: 0 <= i < |alts| ==> alts[i].name in names
  {
    set i | 0 <= i < |alts| :: alts[i].name
  }

  /** The alternative names of each group clause that parses and has an alternative the pool knows. */
  ghost function KnownGroups(cs: seq<ParsedClause>, known: set<string>): set<set<string>>
    decreases |cs|
  {
    if cs == [] then {}
    else
      var last := cs[|cs| - 1];
      KnownGroups(cs[..|cs| - 1], known)
        + if last.Group? && last.alts.Ok? && FirstKnown(last.alts.value, known, 0).Some?
          then {AltNames(last.alts.value)} else {}
  }

  /** The name a clause can add: a single clause's, or a group's first alternative the pool knows. */
  ghost function ClauseNames(c: ParsedClause, known: set<string>): set<string> {
    match c
    case Single(d) => if d.Ok? then {d.value.name} else {}
    case Group(alts) =>
      if alts.Err? then {}
      else
        match FirstKnown(alts.value, known, 0)
        case None => {}
        case Some(k) => {alts.value[k].name}
  }

  /** The names the clauses can add, clause after clause. */
  ghost function RequestedNames(cs: seq<ParsedClause>, known: set<string>): set<string>
    decreases |cs|
  {
    if cs == [] then {} else RequestedNames(cs[..|cs| - 1], known) + ClauseNames(cs[|cs| - 1], known)
  }

  /**
   * Each alternative group the pool knows something of is covered: one of
   * its alternatives is an old dependency or among the new ones.
   */
  lemma {:induction false} GroupsAdded(cs: seq<ParsedClause>, old_deps: map<string, Dependency>, known: set<string>)
    requires NewDepsOf(cs, old_deps, known).Ok?
    ensures forall g :: g in KnownGroups(cs, known) ==>
      exists m :: m in g && (m in old_deps || m in NewDepsOf(cs, old_deps, known).value)
    decreases |cs|
  {
    if cs != [] {
      var prefix := cs[..|cs| - 1];
      var last := cs[|cs| - 1];
      GroupsAdded(prefix, old_deps, known);
      var acc := NewDepsOf(prefix, old_deps, known).value;
      var r := NewDepsOf(cs, old_deps, known).value;
      assert ClauseStep(acc, last, old_deps, known) == Ok(r);
      forall g | g in KnownGroups(cs, known)
        ensures exists m :: m in g && (m in old_deps || m in r)
      {
        if g in KnownGroups(prefix, known) {
          var m :| m in g && (m in old_deps || m in acc);
          assert m in g && (m in old_deps || m in r);
        } else {
          var alts := last.alts.value;
          assert g == AltNames(alts);
          if AnyOld(alts, old_deps) {
            var i :| 0 <= i < |alts| && alts[i].name in old_deps;
            assert alts[i].name in g;
          } else {
            var k := FirstKnown(alts, known, 0).value;
            assert alts[k].name in g && alts[k].name in r;
          }
        }
      }
    }
  }

  /** A new dependency is always a name some clause requests. */
  lemma {:induction false} NewDepsRequested(cs: seq<ParsedClause>, old_deps: map<string, Dependency>, known: set<string>)
    requires NewDepsOf(cs, old_deps, known).Ok?
    ensures forall m :: m in NewDepsOf(cs, old_deps, known).value ==> m in RequestedNames(cs, known)
    decreases |cs|
  {
    if cs != [] {
      NewDepsRequested(cs[..|cs| - 1], old_deps, known);
    }
  }

  /** A served dependency's name is one the pool can serve. */
  lemma ServedName(pool: Pool, dep: Dependency)
    requires IsName(dep.name) && Fetch(pool, dep).Some?
    ensures dep.name in PoolNames(pool)
  {
    FormatDepName(dep);
  }

  /** The number of pool names not yet resolved. */
  ghost function Left(pool: Pool, resolved: map<string, Dependency>): nat {
    |PoolNames(pool) - resolved.Keys|
  }

  /** Before the first pass nothing is resolved and the declared dependencies are pending. */
  lemma PassesStart(pool: Pool, declared: map<string, Dependency>)
    requires Keyed(declared) && Named(declared)
    ensures Passes(pool, declared, map[], map[], declared, map[], false)
  {
  }

  /** Resolving at least one more pool name shrinks the names left. */
  lemma FewerLeft(names: set<string>, a: set<string>, b: set<string>, x: string)
    requires a <= b && x in b && x !in a && x in names
    ensures |names - b| < |names - a|
  {
    assert names - b <= names - a - {x};
    assert x in names - a;
    assert |names - a - {x}| == |names - a| - 1;
    SubsetCard(names - b, names - a - {x});
  }

  lemma SubsetCard<T>(a: set<T>, b: set<T>)
    requires a <= b
    ensures |a| <= |b|
  {
    assert b == a + (b - a);
  }

  /** `reformat2dep` then Dependency, for one plan entry. */
  function Declared(pkg: string): Result<Dependency, DepError> {
    ParseDependency(Reformat(pkg))
  }

  /** The outcome of `resolve` besides the spec. */
  datatype Resolution =
    | Unresolved(packages: set<string>)  // no pool: the plan as declared
    | Resolved(broken: seq<string>)      // the spec holds the resolution

  /**
   * What holds of the resolution between passes: the spec has exactly the
   * resolved names, each at the version the pool serves for it, which
   * satisfies its restriction; and every name a resolved package requires
   * without alternatives is resolved, still pending, or one the pool did
   * not serve.
   */
  ghost predicate Resolving(pool: Pool, pkgs: map<string, string>, resolved: map<string, Dependency>,
                            pending: map<string, Dependency>, missing: map<string, Dependency>)
  {
    Keyed(resolved) && Named(resolved) && Keyed(pending) && Named(pending)
    && (forall n :: n in pkgs <==> n in resolved)
    && (forall n :: n in resolved ==> n in pkgs && Served(pool, resolved[n], pkgs[n]))
    && Missed(pool, missing)
    && (forall n, m :: n in resolved && m in SimpleDeps(pool, resolved[n]) ==>
          m in resolved || m in pending || m in missing)
  }

  /** More pending or missing names keep the resolution invariant. */
  lemma ResolvingWeaken(pool: Pool, pkgs: map<string, string>, resolved: map<string, Dependency>,
                        pending: map<string, Dependency>, missing: map<string, Dependency>,
                        pending': map<string, Dependency>, missing': map<string, Dependency>)
    requires Resolving(pool, pkgs, resolved, pending, missing)
    requires Keyed(pending') && Named(pending') && Missed(pool, missing')
    requires forall m :: m in pending || m in missing ==> m in resolved || m in pending' || m in missing'
    ensures Resolving(pool, pkgs, resolved, pending', missing')
  {
  }

  /** Resolving a served dependency whose simple dependencies are pending keeps the invariant. */
  lemma ResolvingAdd(pool: Pool, pkgs: map<string, string>, resolved: map<string, Dependency>,
                     pending: map<string, Dependency>, missing: map<string, Dependency>,
                     dep: Dependency, version: string)
    requires Resolving(pool, pkgs, resolved, pending, missing)
    requires IsName(dep.name) && dep.name !in resolved && Served(pool, dep, version)
    requires forall m :: m in SimpleDeps(pool, dep) ==> m in pending
    ensures Resolving(pool, pkgs[dep.name := version], resolved[dep.name := dep], pending, missing)
  {
    var pkgs' := pkgs[dep.name := version];
    var resolved' := resolved[dep.name := dep];
    assert Keyed(resolved') && Named(resolved');
    assert forall n :: n in pkgs' <==> n in resolved';
    forall n | n in resolved'
      ensures n in pkgs' && Served(pool, resolved'[n], pkgs'[n])
    {
      if n != dep.name {
        assert resolved'[n] == resolved[n] && pkgs'[n] == pkgs[n];
      }
    }
    forall n, m | n in resolved' && m in SimpleDeps(pool, resolved'[n])
      ensures m in resolved' || m in pending || m in missing
    {
      if n != dep.name {
        assert resolved'[n] == resolved[n];
      }
    }
  }

  /**
   * What holds part-way through a pass that started from `resolved` and
   * `unresolved`: `todo` are the unresolved names not yet visited; every
   * visited one is resolved or missing; the resolved names only grow, and
   * only by unresolved names; and the pass has new dependencies only once it
   * has resolved something.
   */
  ghost predicate RoundState(pool: Pool, pkgs: map<string, string>,
                             resolved: map<string, Dependency>, unresolved: map<string, Dependency>,
                             missing: map<string, Dependency>, todo: set<string>,
                             res: map<string, Dependency>, new_deps: map<string, Dependency>,
                             missing': map<string, Dependency>)
  {
    Keyed(unresolved) && Named(unresolved) && Keyed(new_deps) && Named(new_deps)
    && todo <= unresolved.Keys
    && Resolving(pool, pkgs, res, UnionDeps(unresolved, new_deps), missing')
    && (forall n :: n in res ==> n !in todo)
    && (forall n :: n in resolved ==> n in res)
    && (forall n :: n in res ==> n in resolved || n in unresolved)
    && (forall n :: n in unresolved && n !in todo ==> n in res || n in missing')
    && (forall n :: n in missing ==> n in missing')
    && (new_deps != map[] ==> exists x :: x in res && x !in resolved)
  }

  /** A pass starts with every unresolved name still to visit. */
  lemma RoundStart(pool: Pool, pkgs: map<string, string>, resolved: map<string, Dependency>,
                   unresolved: map<string, Dependency>, missing: map<string, Dependency>)
    requires Resolving(pool, pkgs, resolved, unresolved, missing)
    requires forall n :: n in resolved ==> n !in unresolved
    ensures RoundState(pool, pkgs, resolved, unresolved, missing, unresolved.Keys, resolved, map[], missing)
  {
    assert UnionDeps(unresolved, map[]) == unresolved;
  }

  /** A dependency the pool does not serve is recorded as missing. */
  lemma RoundMiss(pool: Pool, pkgs: map<string, string>, resolved: map<string, Dependency>,
                  unresolved: map<string, Dependency>, missing: map<string, Dependency>, todo: set<string>,
                  res: map<string, Dependency>, new_deps: map<string, Dependency>,
                  missing': map<string, Dependency>, n: string)
    requires RoundState(pool, pkgs, resolved, unresolved, missing, todo, res, new_deps, missing')
    requires n in todo && Fetch(pool, unresolved[n]).None?
    ensures RoundState(pool, pkgs, resolved, unresolved, missing, todo - {n}, res, new_deps,
                       missing'[n := unresolved[n]])
  {
    var pending := UnionDeps(unresolved, new_deps);
    ResolvingWeaken(pool, pkgs, res, pending, missing', pending, missing'[n := unresolved[n]]);
  }

  /** The invariant, once a served dependency is resolved and what it brings is pending. */
  lemma ResolvingServed(pool: Pool, pkgs: map<string, string>, res: map<string, Dependency>,
                        unresolved: map<string, Dependency>, new_deps: map<string, Dependency>,
                        missing': map<string, Dependency>, dep: Dependency, version: string,
                        deps: map<string, Dependency>)
    requires Resolving(pool, pkgs, res, UnionDeps(unresolved, new_deps), missing')
    requires Keyed(unresolved) && Named(unresolved) && Keyed(new_deps) && Named(new_deps)
    requires Keyed(deps) && Named(deps)
    requires IsName(dep.name) && dep.name !in res && Served(pool, dep, version)
    requires forall m :: m in SimpleDeps(pool, dep) ==> m in deps
    ensures Resolving(pool, pkgs[dep.name := version], res[dep.name := dep],
                      UnionDeps(unresolved, UnionDeps(new_deps, deps)), missing')
  {
    var added := UnionDeps(new_deps, deps);
    var grown := UnionDeps(unresolved, added);
    ResolvingWeaken(pool, pkgs, res, UnionDeps(unresolved, new_deps), missing', grown, missing');
    ResolvingAdd(pool, pkgs, res, grown, missing', dep, version);
  }

  /**
   * A dependency the pool serves is resolved, and the dependencies it
   * brings join the pass's new dependencies.
   */
  lemma RoundServed(pool: Pool, pkgs: map<string, string>, resolved: map<string, Dependency>,
                    unresolved: map<string, Dependency>, missing: map<string, Dependency>, todo: set<string>,
                    res: map<string, Dependency>, new_deps: map<string, Dependency>,
                    missing': map<string, Dependency>, n: string, version: string, deps: map<string, Dependency>)
    requires RoundState(pool, pkgs, resolved, unresolved, missing, todo, res, new_deps, missing')
    requires n in todo && Served(pool, unresolved[n], version)
    requires Keyed(deps) && Named(deps)
    requires forall m :: m in SimpleDeps(pool, unresolved[n]) ==> m in deps
    ensures RoundState(pool, pkgs[n := version], resolved, unresolved, missing, todo - {n},
                       res[n := unresolved[n]], UnionDeps(new_deps, deps), missing')
  {
    var dep := unresolved[n];
    ResolvingServed(pool, pkgs, res, unresolved, new_deps, missing', dep, version, deps);
    assert n in res[n := dep] && n !in resolved;
  }

  /**
   * What a pass yields: the invariant, with the pass's new dependencies not
   * resolved by its end as the next pending ones; every unresolved name
   * resolved or missing; and new pending names only after progress.
   */
  ghost predicate RoundDone(pool: Pool, pkgs: map<string, string>,
                            resolved: map<string, Dependency>, unresolved: map<string, Dependency>,
                            missing: map<string, Dependency>, next: Round, missing': map<string, Dependency>)
  {
    Resolving(pool, pkgs, next.resolved, next.unresolved, missing')
    && (forall n :: n in next.resolved ==> n !in next.unresolved)
    && (forall n :: n in resolved ==> n in next.resolved)
    && (forall n :: n in next.resolved ==> n in resolved || n in unresolved)
    && (forall n :: n in unresolved ==> n in next.resolved || n in missing')
    && (forall n :: n in missing ==> n in missing')
    && (next.unresolved != map[] ==> exists x :: x in next.resolved && x !in resolved)
  }

  /** At the end of a pass the new dependencies still unresolved are the next pending ones. */
  lemma RoundEnd(pool: Pool, pkgs: map<string, string>, resolved: map<string, Dependency>,
                 unresolved: map<string, Dependency>, missing: map<string, Dependency>,
                 res: map<string, Dependency>, new_deps: map<string, Dependency>,
                 missing': map<string, Dependency>, provided: set<string>)
    requires RoundState(pool, pkgs, resolved, unresolved, missing, {}, res, new_deps, missing')
    ensures RoundDone(pool, pkgs, resolved, unresolved, missing, Round(res, new_deps - res.Keys, provided), missing')
  {
    var next := new_deps - res.Keys;
    forall m | m in UnionDeps(unresolved, new_deps) || m in missing'
      ensures m in res || m in next || m in missing'
    {
    }
    ResolvingWeaken(pool, pkgs, res, UnionDeps(unresolved, new_deps), missing', next, missing');
  }

  /**
   * Every alternative group of a resolved package that the pool knows an
   * alternative of has an alternative resolved, pending or missing.
   */
  ghost predicate Chosen(pool: Pool, resolved: map<string, Dependency>, pending: map<string, Dependency>,
                         missing: map<string, Dependency>)
  {
    forall n, g :: n in resolved && g in GroupDeps(pool, resolved[n]) ==>
      exists m :: m in g && (m in resolved || m in pending || m in missing)
  }

  /** Some resolved package requests the name. */
  ghost predicate AskedFor(pool: Pool, resolved: map<string, Dependency>, n: string) {
    exists p :: p in resolved && n in Requested(pool, resolved[p])
  }

  /** `big` holds every name of `small`, at the same dependency. */
  predicate Extends(small: map<string, Dependency>, big: map<string, Dependency>) {
    forall n :: n in small ==> n in big && big[n] == small[n]
  }

  /** A pass starts from the pending dependencies alone. */
  lemma ChosenStart(pool: Pool, resolved: map<string, Dependency>, unresolved: map<string, Dependency>,
                    missing: map<string, Dependency>)
    requires Chosen(pool, resolved, unresolved, missing)
    ensures Chosen(pool, resolved, UnionDeps(unresolved, map[]), missing)
  {
    assert UnionDeps(unresolved, map[]) == unresolved;
  }

  /** Recording a miss keeps every group covered. */
  lemma ChosenMiss(pool: Pool, res: map<string, Dependency>, pending: map<string, Dependency>,
                   missing: map<string, Dependency>, n: string, dep: Dependency)
    requires Chosen(pool, res, pending, missing)
    ensures Chosen(pool, res, pending, missing[n := dep])
  {
    forall p, g | p in res && g in GroupDeps(pool, res[p])
      ensures exists m :: m in g && (m in res || m in pending || m in missing[n := dep])
    {
      var m :| m in g && (m in res || m in pending || m in missing);
    }
  }

  /**
   * Resolving a served dependency whose groups are covered by what is
   * resolved, pending or new keeps every group covered.
   */
  lemma ChosenServed(pool: Pool, res: map<string, Dependency>, unresolved: map<string, Dependency>,
                     new_deps: map<string, Dependency>, missing: map<string, Dependency>,
                     n: string, dep: Dependency, deps: map<string, Dependency>)
    requires Chosen(pool, res, UnionDeps(unresolved, new_deps), missing)
    requires dep.name == n && n !in res
    requires forall g :: g in GroupDeps(pool, dep) ==>
      exists m :: m in g && (m in res || m == dep.name || m in unresolved || m in new_deps || m in deps)
    ensures Chosen(pool, res[n := dep], UnionDeps(unresolved, UnionDeps(new_deps, deps)), missing)
  {
    var res' := res[dep.name := dep];
    var pending' := UnionDeps(unresolved, UnionDeps(new_deps, deps));
    forall p, g | p in res' && g in GroupDeps(pool, res'[p])
      ensures exists m :: m in g && (m in res' || m in pending' || m in missing)
    {
      if p == dep.name {
        NewGroupCovered(pool, res, unresolved, new_deps, missing, dep, deps, g);
      } else {
        OldGroupCovered(pool, res, unresolved, new_deps, missing, dep, deps, p, g);
      }
    }
  }

  /** A group of the newly resolved package is covered. */
  lemma NewGroupCovered(pool: Pool, res: map<string, Dependency>, unresolved: map<string, Dependency>,
                        new_deps: map<string, Dependency>, missing: map<string, Dependency>,
                        dep: Dependency, deps: map<string, Dependency>, g: set<string>)
    requires g in GroupDeps(pool, res[dep.name := dep][dep.name])
    requires forall g :: g in GroupDeps(pool, dep) ==>
      exists m :: m in g && (m in res || m == dep.name || m in unresolved || m in new_deps || m in deps)
    ensures exists m :: m in g && (m in res[dep.name := dep] || m in UnionDeps(unresolved, UnionDeps(new_deps, deps)) || m in missing)
  {
    assert res[dep.name := dep][dep.name] == dep;
    var m :| m in g && (m in res || m == dep.name || m in unresolved || m in new_deps || m in deps);
    assert m in res[dep.name := dep] || m in UnionDeps(unresolved, UnionDeps(new_deps, deps));
  }

  /** A group of a package resolved before stays covered. */
  lemma OldGroupCovered(pool: Pool, res: map<string, Dependency>, unresolved: map<string, Dependency>,
                        new_deps: map<string, Dependency>, missing: map<string, Dependency>,
                        dep: Dependency, deps: map<string, Dependency>, p: string, g: set<string>)
    requires Chosen(pool, res, UnionDeps(unresolved, new_deps), missing)
    requires p in res && p != dep.name && g in GroupDeps(pool, res[dep.name := dep][p])
    ensures exists m :: m in g && (m in res[dep.name := dep] || m in UnionDeps(unresolved, UnionDeps(new_deps, deps)) || m in missing)
  {
    assert res[dep.name := dep][p] == res[p];
    var m :| m in g && (m in res || m in UnionDeps(unresolved, new_deps) || m in missing);
    assert m in res[dep.name := dep] || m in UnionDeps(unresolved, UnionDeps(new_deps, deps)) || m in missing;
  }

  /** Resolving a served dependency keeps every new name requested by a resolved package. */
  lemma AskedServed(pool: Pool, resolved: map<string, Dependency>, res: map<string, Dependency>,
                    new_deps: map<string, Dependency>, k: string, dep: Dependency, deps: map<string, Dependency>)
    requires Extends(resolved, res) && dep.name == k && k !in res
    requires forall n :: n in new_deps ==> AskedFor(pool, res, n)
    requires forall m :: m in deps ==> m in Requested(pool, dep)
    ensures Extends(resolved, res[k := dep])
    ensures forall n :: n in UnionDeps(new_deps, deps) ==> AskedFor(pool, res[k := dep], n)
  {
    forall n | n in UnionDeps(new_deps, deps)
      ensures AskedFor(pool, res[k := dep], n)
    {
      if n in new_deps {
        StillAsked(pool, res, dep, n);
      } else {
        AskedByNew(pool, res, dep, n);
      }
    }
  }

  /** A name requested by a resolved package stays requested as more are resolved. */
  lemma StillAsked(pool: Pool, res: map<string, Dependency>, dep: Dependency, n: string)
    requires dep.name !in res && AskedFor(pool, res, n)
    ensures AskedFor(pool, res[dep.name := dep], n)
  {
    var p :| p in res && n in Requested(pool, res[p]);
    assert res[dep.name := dep][p] == res[p];
  }

  /** A name the newly resolved package requests is requested by a resolved package. */
  lemma AskedByNew(pool: Pool, res: map<string, Dependency>, dep: Dependency, n: string)
    requires n in Requested(pool, dep)
    ensures AskedFor(pool, res[dep.name := dep], n)
  {
    assert res[dep.name := dep][dep.name] == dep;
  }

  /**
   * At the end of a pass every unresolved name is resolved or missing, so
   * the groups stay covered by the next pending ones.
   */
  lemma ChosenEnd(pool: Pool, res: map<string, Dependency>, unresolved: map<string, Dependency>,
                  new_deps: map<string, Dependency>, missing: map<string, Dependency>)
    requires Chosen(pool, res, UnionDeps(unresolved, new_deps), missing)
    requires forall n :: n in unresolved ==> n in res || n in missing
    ensures Chosen(pool, res, new_deps - res.Keys, missing)
  {
    forall p, g | p in res && g in GroupDeps(pool, res[p])
      ensures exists m :: m in g && (m in res || m in new_deps - res.Keys || m in missing)
    {
      var m :| m in g && (m in res || m in UnionDeps(unresolved, new_deps) || m in missing);
      assert m in res || m in new_deps - res.Keys || m in missing;
    }
  }

  /**
   * After a pass every resolved or pending name is still declared or
   * requested by a resolved package.
   */
  lemma ReachedNext(pool: Pool, declared: map<string, Dependency>, done: map<string, Dependency>,
                    unresolved: map<string, Dependency>, next: Round)
    requires forall n :: n in done || n in unresolved ==> n in declared || AskedFor(pool, done, n)
    requires Extends(done, next.resolved)
    requires forall n :: n in next.resolved ==> n in done || n in unresolved
    requires forall n :: n in next.unresolved ==> AskedFor(pool, next.resolved, n)
    ensures forall n :: n in next.resolved || n in next.unresolved ==> n in declared || AskedFor(pool, next.resolved, n)
  {
    forall n | n in next.resolved && n !in declared
      ensures AskedFor(pool, next.resolved, n)
    {
      var p :| p in done && n in Requested(pool, done[p]);
      assert p in next.resolved && next.resolved[p] == done[p];
    }
  }

  /**
   * What `_get_new_deps` promises of the dependencies it adds, read against
   * the resolved, unresolved and new names it was handed with the package.
   */
  lemma StepCovers(pool: Pool, dep: Dependency, control: Control, version: string, resolved: map<string, Dependency>,
                   unresolved: map<string, Dependency>, new_deps: map<string, Dependency>, deps: map<string, Dependency>)
    requires Fetch(pool, dep) == Some(control) && "Version" in control && control["Version"] == version
    requires IsVersionOk(dep, version, pool.compare)
    requires Keyed(deps) && Named(deps)
    requires forall m :: m in SimpleNames(ParsedAll(RawDepends(control, dep.fields))) ==> m in deps
    requires var old_deps := UnionDeps(UnionDeps(AddDep(resolved, dep), unresolved), new_deps);
      forall g :: g in KnownGroups(ParsedAll(RawDepends(control, dep.fields)), pool.known) ==>
        exists m :: m in g && (m in old_deps || m in deps)
    requires forall m :: m in deps ==> m in RequestedNames(ParsedAll(RawDepends(control, dep.fields)), pool.known)
    ensures Brings(pool, dep, resolved, unresolved, new_deps, Step(version, deps, Provided(control)))
  {
    StepGroups(pool, dep, control, resolved, unresolved, new_deps, deps);
  }

  /** The old dependencies `_get_new_deps` is handed are the resolved, the unresolved, the new and the package itself. */
  lemma StepGroups(pool: Pool, dep: Dependency, control: Control, resolved: map<string, Dependency>,
                   unresolved: map<string, Dependency>, new_deps: map<string, Dependency>, deps: map<string, Dependency>)
    requires Fetch(pool, dep) == Some(control)
    requires var old_deps := UnionDeps(UnionDeps(AddDep(resolved, dep), unresolved), new_deps);
      forall g :: g in KnownGroups(ParsedAll(RawDepends(control, dep.fields)), pool.known) ==>
        exists m :: m in g && (m in old_deps || m in deps)
    ensures forall g :: g in GroupDeps(pool, dep) ==>
      exists m :: m in g && (m in resolved || m == dep.name || m in unresolved || m in new_deps || m in deps)
  {
    var old_deps := UnionDeps(UnionDeps(AddDep(resolved, dep), unresolved), new_deps);
    forall g | g in GroupDeps(pool, dep)
      ensures exists m :: m in g && (m in resolved || m == dep.name || m in unresolved || m in new_deps || m in deps)
    {
      var m :| m in g && (m in old_deps || m in deps);
      assert m in resolved || m == dep.name || m in unresolved || m in new_deps || m in deps;
    }
  }

  /** What a pass has gathered so far: the resolved dependencies, the new ones, the provided names. */
  datatype Progress = Progress(res: map<string, Dependency>, new_deps: map<string, Dependency>, provided: set<string>)

  /**
   * The state part-way through a pass: the resolution invariant of
   * `RoundState`, every group covered, the dependencies resolved before the
   * pass kept, and every new dependency requested by a resolved package.
   */
  ghost predicate Visiting(pool: Pool, pkgs: map<string, string>,
                           resolved: map<string, Dependency>, unresolved: map<string, Dependency>,
                           missing: map<string, Dependency>, todo: set<string>, progress: Progress,
                           missing': map<string, Dependency>)
  {
    RoundState(pool, pkgs, resolved, unresolved, missing, todo, progress.res, progress.new_deps, missing')
    && Covering(pool, resolved, unresolved, progress, missing')
  }

  /** The part of `Visiting` that the groups and the requests add. */
  ghost predicate Covering(pool: Pool, resolved: map<string, Dependency>, unresolved: map<string, Dependency>,
                           progress: Progress, missing': map<string, Dependency>)
  {
    Chosen(pool, progress.res, UnionDeps(unresolved, progress.new_deps), missing')
    && Extends(resolved, progress.res)
    && (forall m :: m in progress.new_deps ==> AskedFor(pool, progress.res, m))
  }

  /** A pass starts with every unresolved name still to visit. */
  lemma VisitStart(pool: Pool, pkgs: map<string, string>, resolved: map<string, Dependency>,
                   unresolved: map<string, Dependency>, missing: map<string, Dependency>)
    requires Resolving(pool, pkgs, resolved, unresolved, missing)
    requires forall n :: n in resolved ==> n !in unresolved
    requires Chosen(pool, resolved, unresolved, missing)
    ensures Visiting(pool, pkgs, resolved, unresolved, missing, unresolved.Keys, Progress(resolved, map[], {}), missing)
  {
    RoundStart(pool, pkgs, resolved, unresolved, missing);
    ChosenStart(pool, resolved, unresolved, missing);
  }

  /** A dependency the pool does not serve is recorded as missing. */
  lemma VisitMiss(pool: Pool, pkgs: map<string, string>, resolved: map<string, Dependency>,
                  unresolved: map<string, Dependency>, missing: map<string, Dependency>, todo: set<string>,
                  progress: Progress, missing': map<string, Dependency>, n: string)
    requires Visiting(pool, pkgs, resolved, unresolved, missing, todo, progress, missing')
    requires n in todo && Fetch(pool, unresolved[n]).None?
    ensures Visiting(pool, pkgs, resolved, unresolved, missing, todo - {n}, progress, missing'[n := unresolved[n]])
  {
    RoundMiss(pool, pkgs, resolved, unresolved, missing, todo, progress.res, progress.new_deps, missing', n);
    ChosenMiss(pool, progress.res, UnionDeps(unresolved, progress.new_deps), missing', n, unresolved[n]);
  }

  /** A dependency the pool serves is resolved, and what it brings joins the pass. */
  lemma VisitServed(pool: Pool, pkgs: map<string, string>, resolved: map<string, Dependency>,
                    unresolved: map<string, Dependency>, missing: map<string, Dependency>, todo: set<string>,
                    progress: Progress, missing': map<string, Dependency>, n: string, step: Step)
    requires Visiting(pool, pkgs, resolved, unresolved, missing, todo, progress, missing')
    requires n in todo
    requires Brings(pool, unresolved[n], progress.res, unresolved, progress.new_deps, step)
    ensures Visiting(pool, pkgs[n := step.version], resolved, unresolved, missing, todo - {n},
                     Progress(progress.res[n := unresolved[n]], UnionDeps(progress.new_deps, step.deps),
                              progress.provided + step.provided), missing')
  {
    RoundServed(pool, pkgs, resolved, unresolved, missing, todo, progress.res, progress.new_deps, missing', n, step.version, step.deps);
    CoveringServed(pool, resolved, unresolved, progress, missing', n, unresolved[n], step);
  }

  /** The groups and the requests of a served dependency join the pass. */
  lemma CoveringServed(pool: Pool, resolved: map<string, Dependency>, unresolved: map<string, Dependency>,
                       progress: Progress, missing': map<string, Dependency>, n: string, dep: Dependency, step: Step)
    requires Covering(pool, resolved, unresolved, progress, missing')
    requires dep.name == n && n !in progress.res
    requires forall g :: g in GroupDeps(pool, dep) ==>
      exists m :: m in g && (m in progress.res || m == dep.name || m in unresolved || m in progress.new_deps || m in step.deps)
    requires forall m :: m in step.deps ==> m in Requested(pool, dep)
    ensures Covering(pool, resolved, unresolved,
                     Progress(progress.res[n := dep], UnionDeps(progress.new_deps, step.deps),
                              progress.provided + step.provided), missing')
  {
    ChosenServed(pool, progress.res, unresolved, progress.new_deps, missing', n, dep, step.deps);
    AskedServed(pool, resolved, progress.res, progress.new_deps, n, dep, step.deps);
  }

  /**
   * What a pass yields besides `RoundDone`: every group covered by the next
   * pending dependencies, the dependencies resolved before the pass kept,
   * and every next pending name requested by a resolved package.
   */
  ghost predicate RoundChosen(pool: Pool, resolved: map<string, Dependency>, next: Round, missing': map<string, Dependency>) {
    Chosen(pool, next.resolved, next.unresolved, missing')
    && Extends(resolved, next.resolved)
    && (forall n :: n in next.unresolved ==> AskedFor(pool, next.resolved, n))
  }

  /** At the end of a pass the new dependencies still unresolved are the next pending ones. */
  lemma VisitEnd(pool: Pool, pkgs: map<string, string>, resolved: map<string, Dependency>,
                 unresolved: map<string, Dependency>, missing: map<string, Dependency>,
                 progress: Progress, missing': map<string, Dependency>, next: Round)
    requires Visiting(pool, pkgs, resolved, unresolved, missing, {}, progress, missing')
    requires next == Round(progress.res, progress.new_deps - progress.res.Keys, progress.provided)
    ensures RoundDone(pool, pkgs, resolved, unresolved, missing, next, missing')
    ensures RoundChosen(pool, resolved, next, missing')
  {
    RoundEnd(pool, pkgs, resolved, unresolved, missing, progress.res, progress.new_deps, missing', progress.provided);
    ChosenEnd(pool, progress.res, unresolved, progress.new_deps, missing');
  }

  /** What one dependency of a pass yields when the pool serves it. */
  datatype Step = Step(version: string, deps: map<string, Dependency>, provided: set<string>)

  /**
   * What a served dependency brings to a pass: the pool serves it at the
   * step's version, which satisfies its restriction; the new dependencies
   * hold every name it requires without alternatives, only names it
   * requests, and cover each of its groups the pool knows an alternative of
   * together with what the pass already has; and the provided names are its
   * control record's.
   */
  ghost predicate Brings(pool: Pool, dep: Dependency, resolved: map<string, Dependency>,
                         unresolved: map<string, Dependency>, new_deps: map<string, Dependency>, step: Step)
  {
    Served(pool, dep, step.version)
    && Keyed(step.deps) && Named(step.deps)
    && (forall m :: m in SimpleDeps(pool, dep) ==> m in step.deps)
    && (forall m :: m in step.deps ==> m in Requested(pool, dep))
    && (forall g :: g in GroupDeps(pool, dep) ==>
          exists m :: m in g && (m in resolved || m == dep.name || m in unresolved || m in new_deps || m in step.deps))
    && step.provided == Provided(Fetch(pool, dep).value)
  }

  /** The state after one pass of the `while unresolved` loop. */
  datatype Round = Round(resolved: map<string, Dependency>, unresolved: map<string, Dependency>, provided: set<string>)

  /**
   * `{Dependency(reformat2dep(pkg)) for pkg in self}`: the first entry that
   * does not parse is raised; of entries with the same name one is kept.
   */
  method DeclaredDeps(plan: set<string>) returns (r: Result<map<string, Dependency>, DepError>)
    ensures r.Ok? ==> Keyed(r.value) && Named(r.value)
    ensures r.Ok? ==> forall pkg :: pkg in plan ==> Declared(pkg).Ok? && Declared(pkg).value.name in r.value
    ensures r.Ok? ==> forall n :: n in r.value ==> exists pkg :: pkg in plan && Declared(pkg) == Ok(r.value[n])
    ensures r.Err? ==> exists pkg :: pkg in plan && Declared(pkg) == Err(r.error)
    ensures r.Ok? ==> (r.value == map[] <==> plan == {})
  {
    var deps: map<string, Dependency> := map[];
    var todo := plan;
    while todo != {}
      invariant todo <= plan
      invariant Keyed(deps) && Named(deps)
      invariant forall pkg :: pkg in plan && pkg !in todo ==> Declared(pkg).Ok? && Declared(pkg).value.name in deps
      invariant forall n :: n in deps ==> exists pkg :: pkg in plan && Declared(pkg) == Ok(deps[n])
      decreases |todo|
    {
      var pkg :| pkg in todo;
      var d := Declared(pkg);
      if d.Err? {
        return Err(d.error);
      }
      deps := AddDep(deps, d.value);
      todo := todo - {pkg};
    }
    return Ok(deps);
  }

  /**
   * A finished resolution of a plan: the spec holds exactly the resolved
   * names, each at the version the pool serves, which satisfies its
   * restriction; every name a resolved package requires without
   * alternatives is resolved or one the pool does not serve; and so is every
   * declared name. Every alternative group of a resolved package that the
   * pool knows an alternative of has an alternative resolved or missing; and
   * nothing is resolved that is not declared or requested by a resolved
   * package, either without alternatives or as its group's first
   * alternative the pool knows.
   */
  ghost predicate Complete(pool: Pool, plan: set<string>, pkgs: map<string, string>,
                           resolved: map<string, Dependency>, missing: map<string, Dependency>)
  {
    Resolving(pool, pkgs, resolved, map[], missing)
    && (forall pkg :: pkg in plan ==>
          Declared(pkg).Ok? && (Declared(pkg).value.name in resolved || Declared(pkg).value.name in missing))
    && Chosen(pool, resolved, map[], missing)
    && (forall n :: n in resolved ==> DeclaredName(plan, n) || AskedFor(pool, resolved, n))
  }

  /** Some plan entry declares the name. */
  ghost predicate DeclaredName(plan: set<string>, n: string) {
    exists pkg :: pkg in plan && Declared(pkg).Ok? && Declared(pkg).value.name == n
  }

  /**
   * What holds between the passes of `resolve`: the resolution invariant
   * with `unresolved` pending; every declared name resolved, pending or
   * missing; only pool names resolved; every group covered; and every
   * resolved or pending name declared or requested by a resolved package.
   * Before the first pass the pending dependencies are the declared ones.
   */
  ghost predicate Passes(pool: Pool, declared: map<string, Dependency>, pkgs: map<string, string>,
                         resolved: map<string, Dependency>, unresolved: map<string, Dependency>,
                         missing: map<string, Dependency>, bound: bool)
  {
    Resolving(pool, pkgs, resolved, unresolved, missing)
    && (forall n :: n in resolved ==> n !in unresolved)
    && (forall n :: n in resolved ==> n in PoolNames(pool))
    && (forall n :: n in declared ==> n in resolved || n in unresolved || n in missing)
    && (!bound ==> unresolved == declared)
    && (bound ==> declared != map[])
    && Chosen(pool, resolved, unresolved, missing)
    && (forall n :: n in resolved || n in unresolved ==> n in declared || AskedFor(pool, resolved, n))
  }

  /**
   * A pass keeps the invariant between passes, leaves no more pool names to
   * resolve, and fewer whenever it leaves something pending.
   */
  lemma NextPass(pool: Pool, declared: map<string, Dependency>, pkgs: map<string, string>,
                 resolved: map<string, Dependency>, unresolved: map<string, Dependency>,
                 missing: map<string, Dependency>, bound: bool,
                 pkgs': map<string, string>, next: Round, missing': map<string, Dependency>)
    requires Passes(pool, declared, pkgs, resolved, unresolved, missing, bound) && unresolved != map[]
    requires RoundDone(pool, pkgs', resolved, unresolved, missing, next, missing')
    requires RoundChosen(pool, resolved, next, missing')
    ensures Passes(pool, declared, pkgs', next.resolved, next.unresolved, missing', true)
    ensures Left(pool, next.resolved) <= Left(pool, resolved)
    ensures next.unresolved != map[] ==> Left(pool, next.resolved) < Left(pool, resolved)
  {
    PassShrinks(pool, resolved, next.resolved, next.unresolved != map[]);
    ReachedNext(pool, declared, resolved, unresolved, next);
  }

  /**
   * A pass that resolves only names the pool serves leaves no more pool
   * names to resolve, and fewer when it resolved something new.
   */
  lemma PassShrinks(pool: Pool, done: map<string, Dependency>, after: map<string, Dependency>, progress: bool)
    requires forall n :: n in done ==> n in after && n in PoolNames(pool)
    requires Keyed(after) && Named(after)
    requires forall n :: n in after ==> Fetch(pool, after[n]).Some?
    requires progress ==> exists x :: x in after && x !in done
    ensures forall n :: n in after ==> n in PoolNames(pool)
    ensures Left(pool, after) <= Left(pool, done)
    ensures progress ==> Left(pool, after) < Left(pool, done)
  {
    var names := PoolNames(pool);
    forall n | n in after
      ensures n in names
    {
      ServedName(pool, after[n]);
    }
    if progress {
      var x :| x in after && x !in done;
      FewerLeft(names, done.Keys, after.Keys, x);
    } else {
      SubsetCard(names - after.Keys, names - done.Keys);
    }
  }

  /** A resolution that covers every declared name covers every plan entry. */
  lemma DeclaredCovered(pool: Pool, plan: set<string>, declared: map<string, Dependency>, pkgs: map<string, string>,
                        resolved: map<string, Dependency>, missing: map<string, Dependency>)
    requires forall pkg :: pkg in plan ==> Declared(pkg).Ok? && Declared(pkg).value.name in declared
    requires Keyed(declared) && forall n :: n in declared ==> exists pkg :: pkg in plan && Declared(pkg) == Ok(declared[n])
    requires Resolving(pool, pkgs, resolved, map[], missing)
    requires forall n :: n in declared ==> n in resolved || n in missing
    requires Chosen(pool, resolved, map[], missing)
    requires forall n :: n in resolved ==> n in declared || AskedFor(pool, resolved, n)
    ensures Complete(pool, plan, pkgs, resolved, missing)
  {
    forall n | n in declared
      ensures DeclaredName(plan, n)
    {
      var pkg :| pkg in plan && Declared(pkg) == Ok(declared[n]);
    }
    forall pkg | pkg in plan
      ensures Declared(pkg).value.name in resolved || Declared(pkg).value.name in missing
    {
      var n := Declared(pkg).value.name;
      assert n in declared;
    }
  }

  /** A plan: a set of declarations, an optional pool, and the origins recorded while resolving. */
  class Plan {
    var plan: set<string>
    const pool: Option<Pool>
    const packageorigins: PackageOrigins

    ghost predicate Valid()
      reads this, packageorigins
    {
      packageorigins.Valid()
    }

    constructor(iterable: set<string>, pool: Option<Pool>)
      ensures plan == iterable && this.pool == pool
      ensures fresh(packageorigins) && packageorigins.origins == map[] && Valid()
    {
      plan := iterable;
      this.pool := pool;
      packageorigins := new PackageOrigins();
    }

    /** `__ior__`: the union with another plan's declarations or a set. */
    method UnionWith(other: set<string>)
      modifies this
      ensures plan == old(plan) + other
    {
      plan := plan + other;
    }

    method Add(v: string)
      modifies this
      ensures plan == old(plan) + {v}
    {
      plan := plan + {v};
    }

    /**
     * `_get_new_deps`: the dependencies the control record's fields add,
     * given the dependencies already known, each recorded with the declaring
     * package as its origin.
     */
    method GetNewDeps(control: Control, old_deps: map<string, Dependency>, fields: seq<string>)
      returns (r: Result<map<string, Dependency>, PlanError>)
      requires Valid() && pool.Some?
      modifies packageorigins
      ensures Valid()
      ensures r == NewDepsResult(control, old_deps, fields, pool.value.known)
      ensures r.Err? ==> packageorigins.origins == old(packageorigins.origins)
      ensures r.Ok? && r.value != map[] ==>
        "Package" in control
        && packageorigins.origins == WithOrigins(old(packageorigins.origins), r.value.Keys, control["Package"])
      ensures r.Ok? && r.value == map[] ==> packageorigins.origins == old(packageorigins.origins)
      ensures r.Ok? ==> Keyed(r.value) && Named(r.value)
      ensures r.Ok? ==> forall m :: m in SimpleNames(ParsedAll(RawDepends(control, fields))) ==> m in r.value
      ensures r.Ok? ==> forall g :: g in KnownGroups(ParsedAll(RawDepends(control, fields)), pool.value.known) ==>
        exists m :: m in g && (m in old_deps || m in r.value)
      ensures r.Ok? ==> forall m :: m in r.value ==> m in RequestedNames(ParsedAll(RawDepends(control, fields)), pool.value.known)
    {
      var raws := CollectRaw(control, fields);
      var clauses := ParseClauses(raws);
      var selected := SelectNewDeps(clauses, old_deps, pool.value.known);
      if selected.Err? {
        return Err(DepFailure(selected.error));
      }
      var new_deps := selected.value;
      ParsedNamed(raws);
      SimpleNamesAdded(clauses, old_deps, pool.value.known);
      GroupsAdded(clauses, old_deps, pool.value.known);
      NewDepsRequested(clauses, old_deps, pool.value.known);
      if new_deps != map[] {
        if "Package" !in control {
          return Err(NoPackageField);
        }
        packageorigins.AddAll(new_deps.Keys, control["Package"]);
      }
      return Ok(new_deps);
    }

    /**
     * The body of the loop over `unresolved`, for one dependency: the pool's
     * newest control record for it (None where the pool has no package, and
     * the loop moves on), its version checked against the restriction, the
     * spec entry, and the dependencies and provided names it brings in.
     */
    method ResolveOne(spec: Spec, dep: Dependency, resolved: map<string, Dependency>,
                      unresolved: map<string, Dependency>, new_deps: map<string, Dependency>)
      returns (r: Result<Option<Step>, PlanError>)
      requires Valid() && pool.Some? && spec.Valid()
      modifies spec, packageorigins
      ensures Valid() && spec.Valid()
      ensures Fetch(pool.value, dep).None? ==> r == Ok(None) && spec.pkgs == old(spec.pkgs)
      ensures r.Ok? && r.value.None? ==> Fetch(pool.value, dep).None?
      ensures Fetch(pool.value, dep).Some? && "Version" !in Fetch(pool.value, dep).value ==> r == Err(NoVersionField)
      ensures r.Ok? && r.value.Some? ==>
        spec.pkgs == old(spec.pkgs)[dep.name := r.value.value.version]
        && Brings(pool.value, dep, resolved, unresolved, new_deps, r.value.value)
      ensures r.Err? && r.error.Incompatible? ==>
        Fetch(pool.value, dep).Some? && "Version" in Fetch(pool.value, dep).value
        && !IsVersionOk(dep, Fetch(pool.value, dep).value["Version"], pool.value.compare)
    {
      var fetched := Fetch(pool.value, dep);
      if fetched.None? {
        return Ok(None);
      }
      var control := fetched.value;
      if "Version" !in control {
        return Err(NoVersionField);
      }
      var version := control["Version"];
      if !IsVersionOk(dep, version, pool.value.compare) {
        return Err(Incompatible(DependencyText(dep), version));
      }
      var served := ServeOne(spec, dep, control, version, resolved, unresolved, new_deps);
      r := match served
        case Err(e) => Err(e)
        case Ok(step) => Ok(Some(step));
    }

    /**
     * The rest of the loop body once the newest version passes the
     * restriction: the spec entry, then the dependencies and provided names
     * the package brings in.
     */
    method ServeOne(spec: Spec, dep: Dependency, control: Control, version: string, resolved: map<string, Dependency>,
                    unresolved: map<string, Dependency>, new_deps: map<string, Dependency>)
      returns (r: Result<Step, PlanError>)
      requires Valid() && pool.Some? && spec.Valid()
      requires Fetch(pool.value, dep) == Some(control) && "Version" in control && control["Version"] == version
      requires IsVersionOk(dep, version, pool.value.compare)
      modifies spec, packageorigins
      ensures Valid() && spec.Valid()
      ensures spec.pkgs == old(spec.pkgs)[dep.name := version]
      ensures r.Ok? ==> r.value.version == version && Brings(pool.value, dep, resolved, unresolved, new_deps, r.value)
      ensures r.Err? ==> !r.error.Incompatible?
    {
      spec.Add(dep.name, version);
      var old_deps := UnionDeps(UnionDeps(AddDep(resolved, dep), unresolved), new_deps);
      var got := GetNewDeps(control, old_deps, dep.fields);
      if got.Err? {
        return Err(got.error);
      }
      StepCovers(pool.value, dep, control, version, resolved, unresolved, new_deps, got.value);
      return Ok(Step(version, got.value, Provided(control)));
    }

    /**
     * One pass of the `while unresolved` loop: each unresolved dependency is
     * fetched and, when the pool serves it, resolved; the pass's new
     * dependencies that are not resolved by then become the next `unresolved`.
     */
    method ResolveRound(spec: Spec, resolved: map<string, Dependency>, unresolved: map<string, Dependency>,
                        provided: set<string>, ghost missing: map<string, Dependency>)
      returns (r: Result<Round, PlanError>, ghost missing': map<string, Dependency>)
      requires Valid() && pool.Some? && spec.Valid()
      requires Resolving(pool.value, spec.pkgs, resolved, unresolved, missing)
      requires forall n :: n in resolved ==> n !in unresolved
      requires Chosen(pool.value, resolved, unresolved, missing)
      modifies spec, packageorigins
      ensures Valid() && spec.Valid()
      ensures r.Ok? ==> RoundDone(pool.value, spec.pkgs, resolved, unresolved, missing, r.value, missing')
      ensures r.Ok? ==> RoundChosen(pool.value, resolved, r.value, missing')
    {
      var progress := Progress(resolved, map[], provided);
      missing' := missing;
      var todo := unresolved.Keys;
      VisitStart(pool.value, spec.pkgs, resolved, unresolved, missing);
      while todo != {}
        invariant Valid() && spec.Valid()
        invariant Visiting(pool.value, spec.pkgs, resolved, unresolved, missing, todo, progress, missing')
        decreases |todo|
      {
        var n :| n in todo;
        var step;
        step, missing' := Visit(spec, resolved, unresolved, missing, todo, progress, missing', n);
        if step.Err? {
          return Err(step.error), missing';
        }
        progress := step.value;
        todo := todo - {n};
      }
      var next := Round(progress.res, progress.new_deps - progress.res.Keys, progress.provided);
      VisitEnd(pool.value, spec.pkgs, resolved, unresolved, missing, progress, missing', next);
      return Ok(next), missing';
    }

    /**
     * The body of the loop over `unresolved`, for the name `n`: the
     * dependency is resolved when the pool serves it and recorded as missing
     * otherwise.
     */
    method Visit(spec: Spec, resolved: map<string, Dependency>, unresolved: map<string, Dependency>,
                 ghost missing: map<string, Dependency>, todo: set<string>, progress: Progress,
                 ghost missing': map<string, Dependency>, n: string)
      returns (r: Result<Progress, PlanError>, ghost missing'': map<string, Dependency>)
      requires Valid() && pool.Some? && spec.Valid() && n in todo
      requires Visiting(pool.value, spec.pkgs, resolved, unresolved, missing, todo, progress, missing')
      modifies spec, packageorigins
      ensures Valid() && spec.Valid()
      ensures r.Ok? ==> Visiting(pool.value, spec.pkgs, resolved, unresolved, missing, todo - {n}, r.value, missing'')
    {
      var dep := unresolved[n];
      var res, new_deps := progress.res, progress.new_deps;
      ghost var pkgs := spec.pkgs;
      missing'' := missing';
      var step := ResolveOne(spec, dep, res, unresolved, new_deps);
      if step.Err? {
        return Err(step.error), missing'';
      }
      if step.value.None? {
        VisitMiss(pool.value, pkgs, resolved, unresolved, missing, todo, progress, missing', n);
        missing'' := missing'[n := dep];
        return Ok(progress), missing'';
      }
      var s := step.value.value;
      VisitServed(pool.value, pkgs, resolved, unresolved, missing, todo, progress, missing', n, s);
      return Ok(Progress(res[n := dep], UnionDeps(new_deps, s.deps), progress.provided + s.provided)), missing'';
    }

    /**
     * `resolve`: without a pool, the plan as declared; otherwise passes over
     * the unresolved dependencies, starting from the declared ones, until a
     * pass leaves none. The list of broken dependencies it returns is always
     * empty, and with an empty plan the final check reads a name no pass has
     * bound.
     */
    method Resolve() returns (spec: Spec, r: Result<Resolution, PlanError>,
                              ghost resolved: map<string, Dependency>, ghost missing: map<string, Dependency>)
      requires Valid()
      modifies packageorigins
      ensures Valid() && fresh(spec) && spec.Valid()
      ensures pool.None? ==> r == Ok(Unresolved(plan)) && spec.pkgs == map[]
      ensures pool.Some? && plan == {} ==> r == Err(Unbound)
      ensures pool.Some? && r.Ok? ==> r.value == Resolved([]) && Complete(pool.value, plan, spec.pkgs, resolved, missing)
    {
      spec := new Spec();
      resolved, missing := map[], map[];
      if pool.None? {
        return spec, Ok(Unresolved(plan)), resolved, missing;
      }
      var declared := DeclaredDeps(plan);
      if declared.Err? {
        return spec, Err(DepFailure(declared.error)), resolved, missing;
      }
      r, resolved, missing := ResolvePasses(spec, declared.value);
      if r.Ok? {
        DeclaredCovered(pool.value, plan, declared.value, spec.pkgs, resolved, missing);
      }
    }

    /**
     * The `while unresolved` loop of `resolve`, from the declared
     * dependencies and an empty spec: each pass resolves only names the pool
     * serves, so the passes end.
     */
    method ResolvePasses(spec: Spec, declared: map<string, Dependency>)
      returns (r: Result<Resolution, PlanError>, ghost resolved: map<string, Dependency>, ghost missing: map<string, Dependency>)
      requires Valid() && pool.Some? && spec.Valid() && spec.pkgs == map[]
      requires Keyed(declared) && Named(declared)
      modifies spec, packageorigins
      ensures Valid() && spec.Valid()
      ensures declared == map[] ==> r == Err(Unbound)
      ensures r.Ok? ==>
        r.value == Resolved([]) && Resolving(pool.value, spec.pkgs, resolved, map[], missing)
        && forall n :: n in declared ==> n in resolved || n in missing
      ensures r.Ok? ==> Chosen(pool.value, resolved, map[], missing)
      ensures r.Ok? ==> forall n :: n in resolved ==> n in declared || AskedFor(pool.value, resolved, n)
    {
      var done: map<string, Dependency> := map[];
      resolved, missing := done, map[];
      var unresolved := declared;
      var provided: set<string> := {};
      var bound := false;
      PassesStart(pool.value, declared);
      while unresolved != map[]
        invariant Valid() && spec.Valid()
        invariant Passes(pool.value, declared, spec.pkgs, done, unresolved, missing, bound)
        decreases Left(pool.value, done), |unresolved|
      {
        ghost var before, pkgs := missing, spec.pkgs;
        var round;
        round, missing := ResolveRound(spec, done, unresolved, provided, missing);
        if round.Err? {
          return Err(round.error), resolved, missing;
        }
        var next := round.value;
        NextPass(pool.value, declared, pkgs, done, unresolved, before, bound, spec.pkgs, next, missing);
        done, unresolved, provided := next.resolved, next.unresolved, next.provided;
        bound := true;
      }
      if !bound {
        return Err(Unbound), resolved, missing;
      }
      resolved := done;
      return Ok(Resolved([])), resolved, missing;
    }
  }
}
