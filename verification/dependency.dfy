/**
 * Dependency clauses of fablib/plan.py: the `Dependency` and `Restrict`
 * classes, the version check against a restriction, and the request string
 * that asks the pool for a dependency.
 *
 * A clause is a package name, an optional architecture qualifier of up to
 * four characters, zero to two `*` markers that promote Recommends (and
 * Suggests) to dependencies, and an optional `(REL VERSION)` restriction.
 */
module FabDependency {
  import opened Wrappers
  import opened Text

  /** The five relations of Debian control files, <<, <=, =, >= and >>. */
  datatype Relation = Earlier | EarlierEq | Exactly | LaterEq | Later

  function RelationText(rel: Relation): string {
    match rel
    case Earlier => "<<"
    case EarlierEq => "<="
    case Exactly => "="
    case LaterEq => ">="
    case Later => ">>"
  }

  /** Looks a relation up in RELATIONS; anything else is not a relation. */
  function RelationOf(text: string): (rel: Option<Relation>)
    ensures rel.Some? ==> RelationText(rel.value) == text
    ensures rel.None? <==> text !in {"<<", "<=", "=", ">=", ">>"}
  {
    if text == "<<" then Some(Earlier)
    else if text == "<=" then Some(EarlierEq)
    else if text == "=" then Some(Exactly)
    else if text == ">=" then Some(LaterEq)
    else if text == ">>" then Some(Later)
    else None
  }

  /** RELATIONS: the results of version_compare that satisfy each relation. */
  function TrueResults(rel: Relation): set<int> {
    match rel
    case Earlier => {-1}
    case EarlierEq => {-1, 0}
    case Exactly => {0}
    case LaterEq => {0, 1}
    case Later => {1}
  }

  datatype Restrict = Restrict(relation: Relation, version: string)

  /**
   * A parsed clause. Two dependencies are the same dependency when their
   * names are equal; sets of them are therefore kept as maps keyed by name.
   */
  datatype Dependency = Dependency(name: string, fields: seq<string>, restrict: Option<Restrict>)

  datatype DepError =
    | IllegalDependency(text: string)
    | IllegalRestriction(text: string)
    | BadRelation(relation: string)

  predicate IsNameStart(c: char) {
    'a' <= c <= 'z' || '0' <= c <= '9'
  }

  predicate IsNameChar(c: char) {
    IsNameStart(c) || c == '+' || c == '-' || c == '.'
  }

  predicate IsArchChar(c: char) {
    c == ':' || 'a' <= c <= 'z'
  }

  predicate IsStar(c: char) {
    c == '*'
  }

  predicate IsRelChar(c: char) {
    c == '<' || c == '>' || c == '='
  }

  /** The characters of `[\w~\-.+:]`, with `\w` read as ASCII letters, digits and `_`. */
  predicate IsVersionChar(c: char) {
    'a' <= c <= 'z' || 'A' <= c <= 'Z' || '0' <= c <= '9'
    || c == '_' || c == '~' || c == '-' || c == '.' || c == '+' || c == ':'
  }

  /** A package name as the clause grammar accepts it. */
  predicate IsName(s: string) {
    |s| >= 2 && IsNameStart(s[0]) && forall i :: 0 <= i < |s| ==> IsNameChar(s[i])
  }

  predicate IsVersion(s: string) {
    s != [] && forall i :: 0 <= i < |s| ==> IsVersionChar(s[i])
  }

  const BaseFields: seq<string> := ["Pre-Depends", "Depends"]

  /** The control fields a clause with `stars` promotion markers draws dependencies from. */
  function PromotedFields(stars: nat): seq<string>
  {
    if stars == 0 then BaseFields
    else if stars == 2 then BaseFields + ["Recommends", "Suggests"]
    else BaseFields + ["Recommends"]
  }

  /**
   * The body of `\s+\((.*?)\)` followed by the end of the text: at least one
   * whitespace character, then a parenthesised body without a newline.
   */
  function ParenBody(s: string): Option<string> {
    var w := RunLength(s, Spaces(Unicode));
    var p := s[w..];
    if w == 0 || |p| < 2 || p[0] != '(' || p[|p| - 1] != ')' || '\n' in p[1..|p| - 1] then None
    else Some(p[1..|p| - 1])
  }

  /** `([<>=]+)\s+([\w~\-.+:]+)$` on a restriction body, then the RELATIONS check. */
  function ParseRestriction(body: string): (r: Result<Restrict, DepError>)
    ensures r.Ok? ==> IsVersion(r.value.version)
    ensures r.Err? ==> r.error == IllegalRestriction(body) || r.error.BadRelation?
  {
    var m := RunLength(body, IsRelChar);
    var rest := body[m..];
    var w := RunLength(rest, Spaces(Unicode));
    var version := rest[w..];
    if m == 0 || w == 0 || !IsVersion(version) then Err(IllegalRestriction(body))
    else
      match RelationOf(body[..m])
      case None => Err(BadRelation(body[..m]))
      case Some(rel) => Ok(Restrict(rel, version))
  }

  /** `([a-z0-9][a-z0-9+\-.]+)`: the leading name-character run, when it is a name. */
  function NamePart(t: string): (name: Option<string>)
    ensures name.Some? ==> IsName(name.value) && IsPrefix(name.value, t)
  {
    var n := RunLength(t, IsNameChar);
    if n < 2 || !IsNameStart(t[0]) then None
    else
      RunLengthProps(t, IsNameChar);
      Some(t[..n])
  }

  /**
   * `[:a-z]{0,4}(\*{0,2})` after the name: the number of promotion markers
   * and the text after them.
   */
  function Promotion(rest: string): (r: Option<(nat, string)>)
    ensures r.Some? ==> r.value.0 <= 2 && IsSuffix(r.value.1, rest)
  {
    var a := RunLength(rest, IsArchChar);
    if a > 4 then None
    else
      var k := RunLength(rest[a..], IsStar);
      if k > 2 then None else Some((k, rest[a + k..]))
  }

  /**
   * `(?:\s+\((.*?)\))?$` after the promotion markers: no restriction for an
   * empty tail or empty parentheses, otherwise the parsed body; None when the
   * tail does not have this shape.
   */
  function ParseTail(tail: string): (r: Option<Result<Option<Restrict>, DepError>>)
    ensures r.Some? && r.value.Ok? && r.value.value.Some? ==> IsVersion(r.value.value.value.version)
    ensures r.Some? && r.value.Err? ==> !r.value.error.IllegalDependency?
  {
    if tail == [] then Some(Ok(None))
    else
      match ParenBody(tail)
      case None => None
      case Some(body) =>
        if body == [] then Some(Ok(None))
        else
          match ParseRestriction(body)
          case Err(e) => Some(Err(e))
          case Ok(restrict) => Some(Ok(Some(restrict)))
  }

  /** The clause grammar on already stripped text. */
  function ParseClause(t: string): (r: Result<Dependency, DepError>)
    ensures r.Ok? ==> IsName(r.value.name) && IsPrefix(r.value.name, t)
    ensures r.Ok? && r.value.restrict.Some? ==> IsVersion(r.value.restrict.value.version)
    ensures r.Err? && r.error.IllegalDependency? ==> r.error.text == t
  {
    match NamePart(t)
    case None => Err(IllegalDependency(t))
    case Some(name) =>
      match Promotion(t[|name|..])
      case None => Err(IllegalDependency(t))
      case Some((k, tail)) =>
        match ParseTail(tail)
        case None => Err(IllegalDependency(t))
        case Some(Err(e)) => Err(e)
        case Some(Ok(restrict)) => Ok(Dependency(name, PromotedFields(k), restrict))
  }

  /** Dependency(string): parse one clause, after stripping surrounding whitespace. */
  function ParseDependency(text: string): (r: Result<Dependency, DepError>)
    ensures r.Ok? ==> IsName(r.value.name) && IsPrefix(r.value.name, Strip(text, Unicode))
  {
    ParseClause(Strip(text, Unicode))
  }

  /** Restrict.__str__ inside the parentheses of Dependency.__str__. */
  function RestrictSuffix(restrict: Option<Restrict>): string {
    match restrict
    case None => ""
    case Some(rs) => " (" + RelationText(rs.relation) + " " + rs.version + ")"
  }

  /** Dependency.__str__: the name, then the restriction in parentheses if there is one. */
  function DependencyText(dep: Dependency): (s: string)
    ensures IsPrefix(dep.name, s)
    ensures dep.restrict.None? <==> s == dep.name
  {
    dep.name + RestrictSuffix(dep.restrict)
  }

  /** is_version_ok, with debian_support.version_compare passed in as `compare`. */
  function IsVersionOk(dep: Dependency, version: string, compare: (string, string) -> int): bool {
    match dep.restrict
    case None => true
    case Some(rs) => compare(version, rs.version) in TrueResults(rs.relation)
  }

  /** format_dep: the pool request for a dependency; only `=` pins a version. */
  function FormatDep(dep: Dependency): (request: string)
    ensures IsPrefix(dep.name, request)
    ensures request == dep.name <==> !(dep.restrict.Some? && dep.restrict.value.relation == Exactly)
  {
    match dep.restrict
    case Some(rs) =>
      if rs.relation == Exactly then dep.name + "=" + rs.version else dep.name
    case None => dep.name
  }

  /** version_compare answers -1, 0 or 1. */
  ghost predicate IsComparator(compare: (string, string) -> int) {
    forall a, b :: compare(a, b) in {-1, 0, 1}
  }

  // ---------------------------------------------------------------------
  // Properties of the clause grammar, stage by stage

  lemma NamePartOf(name: string, rest: string)
    requires IsName(name) && (rest == [] || !IsNameChar(rest[0]))
    ensures NamePart(name + rest) == Some(name)
  {
    RunLengthExact(name + rest, IsNameChar, |name|);
    assert (name + rest)[..|name|] == name;
  }

  lemma PromotionOf(stars: nat, tail: string)
    requires stars <= 2 && (tail == [] || tail[0] == ' ')
    ensures Promotion(Repeat('*', stars) + tail) == Some((stars, tail))
  {
    var s := Repeat('*', stars) + tail;
    RunLengthExact(s, IsArchChar, 0);
    assert s[0..] == s;
    RunLengthExact(s, IsStar, stars);
    assert s[stars..] == tail;
  }

  lemma ParenBodyOf(body: string)
    requires '\n' !in body
    ensures ParenBody(" (" + body + ")") == Some(body)
  {
    var s := " (" + body + ")";
    RunLengthExact(s, Spaces(Unicode), 1);
    var p := s[1..];
    assert p == "(" + body + ")";
    assert p[1..|p| - 1] == body;
  }

  /** A run of relation characters, one space and a version: the relation decides the outcome. */
  lemma RestrictionParts(rel: string, version: string)
    requires IsVersion(version)
    requires rel != [] && (forall i :: 0 <= i < |rel| ==> IsRelChar(rel[i]))
    ensures ParseRestriction(rel + " " + version)
      == match RelationOf(rel)
         case None => Err(BadRelation(rel))
         case Some(relation) => Ok(Restrict(relation, version))
  {
    var body := rel + " " + version;
    RunLengthExact(body, IsRelChar, |rel|);
    assert body[|rel|..] == " " + version;
    RunLengthExact(" " + version, Spaces(Unicode), 1);
    assert (" " + version)[1..] == version;
    assert body[..|rel|] == rel;
  }

  lemma RestrictionOf(rs: Restrict)
    requires IsVersion(rs.version)
    ensures ParseRestriction(RelationText(rs.relation) + " " + rs.version) == Ok(rs)
  {
    var rel := RelationText(rs.relation);
    assert RelationOf(rel) == Some(rs.relation);
    RestrictionParts(rel, rs.version);
  }

  lemma VersionNoNewline(prefix: string, version: string)
    requires '\n' !in prefix && IsVersion(version)
    ensures '\n' !in prefix + version
  {
    forall i | 0 <= i < |prefix + version|
      ensures (prefix + version)[i] != '\n'
    {
      if i >= |prefix| {
        assert (prefix + version)[i] == version[i - |prefix|];
      }
    }
  }

  lemma TailOf(restrict: Option<Restrict>)
    requires restrict.Some? ==> IsVersion(restrict.value.version)
    ensures ParseTail(RestrictSuffix(restrict)) == Some(Ok(restrict))
  {
    match restrict
    case None =>
    case Some(rs) =>
      var rel := RelationText(rs.relation);
      var body := rel + " " + rs.version;
      assert RestrictSuffix(restrict) == " (" + body + ")";
      VersionNoNewline(rel + " ", rs.version);
      ParenBodyOf(body);
      RestrictionOf(rs);
  }

  lemma ClauseRender(name: string, stars: nat, restrict: Option<Restrict>)
    requires IsName(name) && stars <= 2
    requires restrict.Some? ==> IsVersion(restrict.value.version)
    ensures ParseClause(name + (Repeat('*', stars) + RestrictSuffix(restrict)))
      == Ok(Dependency(name, PromotedFields(stars), restrict))
  {
    var suffix := RestrictSuffix(restrict);
    var rest := Repeat('*', stars) + suffix;
    var t := name + rest;
    assert suffix == [] || suffix[0] == ' ';
    assert rest == [] || rest[0] == '*' || rest[0] == ' ' by {
      if stars > 0 {
        assert rest[0] == '*';
      } else {
        assert rest == suffix;
      }
    }
    NamePartOf(name, rest);
    assert t[|name|..] == rest;
    PromotionOf(stars, suffix);
    TailOf(restrict);
    ClauseOf(t, name, stars, suffix, restrict);
  }

  lemma RenderTrimmed(name: string, stars: nat, restrict: Option<Restrict>)
    requires IsName(name)
    ensures var t := name + (Repeat('*', stars) + RestrictSuffix(restrict)); Strip(t, Unicode) == t
  {
    var t := name + (Repeat('*', stars) + RestrictSuffix(restrict));
    assert t[0] == name[0];
    if RestrictSuffix(restrict) != [] {
      assert t[|t| - 1] == ')';
    } else if stars > 0 {
      assert t[|t| - 1] == '*';
    } else {
      assert t == name;
    }
    StripTrimmed(t, Unicode);
  }

  /** A clause as written in a plan: name, promotion markers, optional restriction. */
  function ClauseText(name: string, stars: nat, restrict: Option<Restrict>): string {
    name + (Repeat('*', stars) + RestrictSuffix(restrict))
  }

  /** A name, up to two stars and an optional well-formed restriction parse back to their parts. */
  lemma ParseRender(name: string, stars: nat, restrict: Option<Restrict>)
    requires IsName(name) && stars <= 2
    requires restrict.Some? ==> IsVersion(restrict.value.version)
    ensures ParseDependency(ClauseText(name, stars, restrict))
      == Ok(Dependency(name, PromotedFields(stars), restrict))
  {
    var t := ClauseText(name, stars, restrict);
    assert Strip(t, Unicode) == t by {
      RenderTrimmed(name, stars, restrict);
    }
    assert ParseClause(t) == Ok(Dependency(name, PromotedFields(stars), restrict)) by {
      ClauseRender(name, stars, restrict);
    }
  }

  /** Dependency.__str__ parses back to the same dependency, with the base fields. */
  lemma ParseText(dep: Dependency)
    requires IsName(dep.name)
    requires dep.restrict.Some? ==> IsVersion(dep.restrict.value.version)
    ensures ParseDependency(DependencyText(dep)) == Ok(dep.(fields := BaseFields))
  {
    assert Repeat('*', 0) + RestrictSuffix(dep.restrict) == RestrictSuffix(dep.restrict);
    assert DependencyText(dep) == ClauseText(dep.name, 0, dep.restrict);
    ParseRender(dep.name, 0, dep.restrict);
  }

  /** ParseClause put together from the results of its three stages. */
  lemma ClauseOf(t: string, name: string, stars: nat, tail: string, restrict: Option<Restrict>)
    requires NamePart(t) == Some(name)
    requires Promotion(t[|name|..]) == Some((stars, tail))
    requires ParseTail(tail) == Some(Ok(restrict))
    ensures ParseClause(t) == Ok(Dependency(name, PromotedFields(stars), restrict))
  {
  }

  lemma {:induction false} CountAll(s: string, c: char)
    requires forall i :: 0 <= i < |s| ==> s[i] == c
    ensures Count(s, c) == |s|
    decreases |s|
  {
    if s != [] {
      CountAll(s[1..], c);
    }
  }

  lemma PromotionCount(rest: string)
    requires Promotion(rest).Some?
    ensures Count(rest, '*') == Promotion(rest).value.0 + Count(Promotion(rest).value.1, '*')
  {
    var a := RunLength(rest, IsArchChar);
    var after := rest[a..];
    var k := RunLength(after, IsStar);
    assert Promotion(rest) == Some((k, after[k..]));
    ArchNoStar(rest);
    StarRun(after);
    CountPieces(rest, a, k);
  }

  /** Counting `*` piece by piece: the qualifier, the markers, the tail. */
  lemma CountPieces(rest: string, a: nat, k: nat)
    requires a <= |rest| && k <= |rest| - a
    requires Count(rest[..a], '*') == 0 && Count(rest[a..][..k], '*') == k
    ensures Count(rest, '*') == k + Count(rest[a..][k..], '*')
  {
    var arch, stars, tail := rest[..a], rest[a..][..k], rest[a..][k..];
    assert rest == arch + (stars + tail);
    CountAppend(arch, stars + tail, '*');
    CountAppend(stars, tail, '*');
  }

  /** The run of markers counts one `*` per character. */
  lemma StarRun(s: string)
    ensures Count(s[..RunLength(s, IsStar)], '*') == RunLength(s, IsStar)
  {
    var k := RunLength(s, IsStar);
    RunLengthProps(s, IsStar);
    assert forall i :: 0 <= i < k ==> s[..k][i] == s[i];
    CountAll(s[..k], '*');
  }

  /** The architecture qualifier in front of the markers has no `*` in it. */
  lemma ArchNoStar(rest: string)
    ensures Count(rest[..RunLength(rest, IsArchChar)], '*') == 0
  {
    var a := RunLength(rest, IsArchChar);
    RunLengthProps(rest, IsArchChar);
    assert forall i :: 0 <= i < a ==> rest[..a][i] == rest[i];
    CountAbsent(rest[..a], '*');
  }

  /** A restriction body that parses has no `*` in it. */
  lemma RestrictNoStar(body: string)
    requires ParseRestriction(body).Ok?
    ensures '*' !in body
  {
    var m := RunLength(body, IsRelChar);
    var rest := body[m..];
    var w := RunLength(rest, Spaces(Unicode));
    var version := rest[w..];
    RunLengthProps(body, IsRelChar);
    LeadingSpace(rest, Unicode);
    NotInSpace(rest[..w], Unicode, '*');
    assert '*' !in body[..m];
    assert '*' !in version;
    ThreePieces(body, m, w, '*');
  }

  /** A character in none of three consecutive pieces is not in the whole. */
  lemma ThreePieces(s: string, m: nat, w: nat, c: char)
    requires m <= |s| && w <= |s| - m
    requires c !in s[..m] && c !in s[m..][..w] && c !in s[m..][w..]
    ensures c !in s
  {
    assert s == s[..m] + s[m..][..w] + s[m..][w..];
  }

  /** A string that opens and closes with parentheses is its inside, wrapped. */
  lemma Wrapped(p: string)
    requires |p| >= 2 && p[0] == '(' && p[|p| - 1] == ')'
    ensures p == "(" + p[1..|p| - 1] + ")"
  {
  }

  /** What ParenBody accepts: a run of whitespace, then the body in parentheses. */
  lemma ParenShape(s: string)
    requires ParenBody(s).Some?
    ensures var w := RunLength(s, Spaces(Unicode));
      AllSpace(s[..w], Unicode) && s == s[..w] + ("(" + ParenBody(s).value + ")")
  {
    var w := RunLength(s, Spaces(Unicode));
    LeadingSpace(s, Unicode);
    var body := ParenBody(s).value;
    assert s[w..] == "(" + body + ")" by {
      Wrapped(s[w..]);
    }
    Rejoin(s, w, "(" + body + ")");
  }

  /** A string is its prefix followed by the rest. */
  lemma Rejoin(s: string, w: nat, rest: string)
    requires w <= |s| && s[w..] == rest
    ensures s == s[..w] + rest
  {
    assert s == s[..w] + s[w..];
  }

  lemma TailNoStar(tail: string)
    requires ParseTail(tail).Some? && ParseTail(tail).value.Ok?
    ensures '*' !in tail
  {
    if tail != [] {
      var w := RunLength(tail, Spaces(Unicode));
      var body := ParenBody(tail).value;
      ParenShape(tail);
      NotInSpace(tail[..w], Unicode, '*');
      if body != [] {
        RestrictNoStar(body);
      }
      assert '*' !in "(" + body + ")";
    }
  }

  /** A parsed clause draws on Recommends for each `*` in it and on Suggests for two. */
  lemma ParsedFields(text: string)
    requires ParseDependency(text).Ok?
    ensures ParseDependency(text).value.fields == PromotedFields(Count(Strip(text, Unicode), '*'))
  {
    ClauseFields(Strip(text, Unicode));
  }

  /** The same on already stripped text. */
  lemma ClauseFields(t: string)
    requires ParseClause(t).Ok?
    ensures ParseClause(t).value.fields == PromotedFields(Count(t, '*'))
  {
    ClauseParts(t);
    var name := NamePart(t).value;
    var rest := t[|name|..];
    var (k, tail) := Promotion(rest).value;
    TailNoStar(tail);
    StarsCount(t, name, rest, k, tail);
  }

  /** A clause that parses is a name, at most two markers and a tail that parses, and its markers choose its fields. */
  lemma ClauseParts(t: string)
    requires ParseClause(t).Ok?
    ensures NamePart(t).Some? && Promotion(t[|NamePart(t).value|..]).Some?
    ensures var (k, tail) := Promotion(t[|NamePart(t).value|..]).value;
      ParseTail(tail).Some? && ParseTail(tail).value.Ok? && ParseClause(t).value.fields == PromotedFields(k)
  {
  }

  /** The markers are all the `*` of a clause. */
  lemma StarsCount(t: string, name: string, rest: string, k: nat, tail: string)
    requires IsName(name) && IsPrefix(name, t) && rest == t[|name|..]
    requires Promotion(rest) == Some((k, tail)) && '*' !in tail
    ensures Count(t, '*') == k
  {
    assert t == name + rest;
    CountAppend(name, rest, '*');
    CountAbsent(name, '*');
    PromotionCount(rest);
    CountAbsent(tail, '*');
  }

  /** More than two promotion markers are not a clause. */
  lemma TooManyStars(name: string, stars: nat)
    requires IsName(name) && stars > 2
    ensures ParseDependency(name + Repeat('*', stars)) == Err(IllegalDependency(name + Repeat('*', stars)))
  {
    var rest := Repeat('*', stars);
    var t := name + rest;
    assert t[0] == name[0] && t[|t| - 1] == '*';
    StripTrimmed(t, Unicode);
    NamePartOf(name, rest);
    assert t[|name|..] == rest;
    RunLengthExact(rest, IsArchChar, 0);
    assert rest[0..] == rest;
    RunLengthExact(rest, IsStar, stars);
  }

  lemma ClauseErrOf(t: string, name: string, stars: nat, tail: string, e: DepError)
    requires NamePart(t) == Some(name)
    requires Promotion(t[|name|..]) == Some((stars, tail))
    requires ParseTail(tail) == Some(Err(e))
    ensures ParseClause(t) == Err(e)
  {
  }

  /** A well-formed restriction whose operator is not one of the five relations is refused. */
  lemma UnknownRelation(name: string, rel: string, version: string)
    requires IsName(name) && IsVersion(version)
    requires rel != [] && (forall i :: 0 <= i < |rel| ==> IsRelChar(rel[i]))
    requires RelationOf(rel).None?
    ensures ParseDependency(name + " (" + rel + " " + version + ")") == Err(BadRelation(rel))
  {
    var body := rel + " " + version;
    var tail := " (" + body + ")";
    var t := name + tail;
    assert t == name + " (" + rel + " " + version + ")";
    assert Strip(t, Unicode) == t by {
      assert t[0] == name[0] && t[|t| - 1] == ')';
      StripTrimmed(t, Unicode);
    }
    assert ParseTail(tail) == Some(Err(BadRelation(rel))) by {
      assert '\n' !in rel + " " by {
        assert forall i :: 0 <= i < |rel| ==> rel[i] != '\n';
      }
      VersionNoNewline(rel + " ", version);
      ParenBodyOf(body);
      RestrictionParts(rel, version);
    }
    assert ParseClause(t) == Err(BadRelation(rel)) by {
      NamePartOf(name, tail);
      assert t[|name|..] == tail;
      assert Repeat('*', 0) + tail == tail;
      PromotionOf(0, tail);
      ClauseErrOf(t, name, 0, tail, BadRelation(rel));
    }
  }

  /** Text that does not start with a name character is not a clause. */
  lemma BadFirstChar(text: string)
    requires Strip(text, Unicode) == [] || !IsNameStart(Strip(text, Unicode)[0])
    ensures ParseDependency(text) == Err(IllegalDependency(Strip(text, Unicode)))
  {
  }

  // ---------------------------------------------------------------------
  // Properties of restrictions

  /** With a comparator answering -1/0/1, `>=` and `<<` (and `<=` and `>>`) split the versions between them. */
  lemma RelationsComplement(name: string, pin: string, version: string, compare: (string, string) -> int)
    requires IsComparator(compare)
    ensures var at := (rel: Relation) => Dependency(name, BaseFields, Some(Restrict(rel, pin)));
      IsVersionOk(at(LaterEq), version, compare) != IsVersionOk(at(Earlier), version, compare)
      && IsVersionOk(at(EarlierEq), version, compare) != IsVersionOk(at(Later), version, compare)
      && (IsVersionOk(at(Exactly), version, compare)
          <==> IsVersionOk(at(EarlierEq), version, compare) && IsVersionOk(at(LaterEq), version, compare))
  {
    assert compare(version, pin) in {-1, 0, 1};
  }

  /**
   * When version_compare(v, v) is 0, a restriction against v itself holds
   * exactly for the non-strict relations.
   */
  lemma RestrictAgainstItself(dep: Dependency, compare: (string, string) -> int)
    requires dep.restrict.Some? && compare(dep.restrict.value.version, dep.restrict.value.version) == 0
    ensures IsVersionOk(dep, dep.restrict.value.version, compare)
      <==> dep.restrict.value.relation in {EarlierEq, Exactly, LaterEq}
  {
  }

  /** The pool request names the dependency and nothing else before any `=`. */
  lemma FormatDepName(dep: Dependency)
    requires IsName(dep.name)
    ensures Before(FormatDep(dep), '=') == dep.name
  {
    assert '=' !in dep.name by {
      forall i | 0 <= i < |dep.name|
        ensures dep.name[i] != '='
      {
        assert IsNameChar(dep.name[i]);
      }
    }
    var r := FormatDep(dep);
    if r != dep.name {
      assert r[|dep.name|] == '=';
      assert r[..|dep.name|] == dep.name;
      FindFirst(r, '=', |dep.name|);
    }
  }
}
