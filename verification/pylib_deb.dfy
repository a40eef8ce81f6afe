/**
 * pylib's `deb` helpers: the virtual-name table, the pre-install test, the
 * `.deb` file-name parser, the `Depends` element parser with the exact
 * matching rule of its regular expression, and the dependency set `info`
 * builds from a package's control fields, choosing among alternatives.
 *
 * Whether a package exists in the pool is a parameter `available`.
 */
module PylibDeb {
  import opened Wrappers
  import opened Text
  import opened Paths

  // ---------------------------------------------------------------------
  // Names

  /** `parse_name`'s table: virtual package names and the package providing each. */
  const Virtuals: map<string, string> := map[
    "awk" := "mawk",
    "perl5" := "perl",
    "perlapi-5.8.7" := "perl-base",
    "perlapi-5.8.8" := "perl-base",
    "mail-transport-agent" := "postfix",
    "libapt-pkg-libc6.4-6-3.53" := "apt",
    "aufs-modules" := "aufs-modules-2.6.20-15-386"
  ]

  /** `parse_name`: the providing package of a virtual name, any other name unchanged. */
  function ParseName(name: string): string {
    if name in Virtuals then Virtuals[name] else name
  }

  /** No providing package is itself virtual. */
  lemma ProvidersNotVirtual()
    ensures forall v :: v in Virtuals ==> Virtuals[v] !in Virtuals
  {
    assert Virtuals.Keys == {"awk", "perl5", "perlapi-5.8.7", "perlapi-5.8.8", "mail-transport-agent",
                             "libapt-pkg-libc6.4-6-3.53", "aufs-modules"};
    assert Virtuals.Values == {"mawk", "perl", "perl-base", "postfix", "apt", "aufs-modules-2.6.20-15-386"};
  }

  /**
   * `parse_name` changes exactly the seven virtual names, and applying it
   * twice is applying it once.
   */
  lemma ParseNameRewrites(name: string)
    ensures ParseName(name) != name <==> name in Virtuals
    ensures ParseName(ParseName(name)) == ParseName(name)
  {
    ProvidersNotVirtual();
  }

  /** `is_preinstall`: kernel images go in before everything else. */
  predicate IsPreinstall(name: string) {
    IsPrefix("linux-image", name)
  }

  /** A kernel image is never a virtual name, so `parse_name` keeps it. */
  lemma PreinstallKept(name: string)
    requires IsPreinstall(name)
    ensures ParseName(name) == name
  {
    assert name[..11] == "linux-image";
    assert name[2] == "linux-image"[2] == 'n';
    VirtualsThirdChar();
  }

  /** No virtual name has `n` as its third character. */
  lemma VirtualsThirdChar()
    ensures forall v :: v in Virtuals ==> |v| < 3 || v[2] != 'n'
  {
    assert Virtuals.Keys == {"awk", "perl5", "perlapi-5.8.7", "perlapi-5.8.8", "mail-transport-agent",
                             "libapt-pkg-libc6.4-6-3.53", "aufs-modules"};
  }

  // ---------------------------------------------------------------------
  // Package file names

  datatype FilenameError =
    | NotAPackage(filename: string)   // Error: the name does not end in `.deb`
    | TooFewFields(filename: string)  // ValueError: no `_` to split name from version

  /** `parse_filename`: the first two `_`-separated fields of a `.deb` file name. */
  function ParseFilename(filename: string): (r: Result<(string, string), FilenameError>)
    ensures r.Err? <==> !IsSuffix(".deb", filename) || '_' !in filename
    ensures r.Ok? ==> '_' !in r.value.0 && '_' !in r.value.1
  {
    if !IsSuffix(".deb", filename) then Err(NotAPackage(filename))
    else
      var fields := Split(filename, '_');
      FieldCount(filename, '_');
      if |fields| < 2 then Err(TooFewFields(filename))
      else Ok((fields[0], fields[1]))
  }

  /** A split has a second field exactly when the separator occurs. */
  lemma FieldCount(s: string, c: char)
    ensures |Split(s, c)| >= 2 <==> c in s
  {
    match Find(s, c)
    case None =>
    case Some(k) =>
      SplitAt(s, c, k, s[..k], s[k + 1..]);
  }

  /**
   * A file name `name_version` followed by nothing or by another `_`
   * field, and ending in `.deb`, parses back into its name and version.
   */
  lemma FilenameRoundTrip(name: string, version: string, tail: string)
    requires '_' !in name && '_' !in version
    requires tail == [] || tail[0] == '_'
    requires IsSuffix(".deb", name + "_" + version + tail)
    ensures ParseFilename(name + "_" + version + tail) == Ok((name, version))
  {
    var s := name + "_" + version + tail;
    assert s[..|name|] == name && s[|name|] == '_';
    assert s[|name| + 1..|name| + 1 + |version|] == version;
    assert |name| + 1 + |version| < |s| ==> s[|name| + 1 + |version|] == tail[0];
    FieldsOf(s, name, version);
  }

  /** Where a text begins with `name_version` and then ends or has `_`, those are its first two fields. */
  lemma FieldsOf(s: string, name: string, version: string)
    requires '_' !in name && '_' !in version
    requires |name| + 1 + |version| <= |s|
    requires s[..|name|] == name && s[|name|] == '_'
    requires s[|name| + 1..|name| + 1 + |version|] == version
    requires |name| + 1 + |version| == |s| || s[|name| + 1 + |version|] == '_'
    ensures |Split(s, '_')| >= 2 && Split(s, '_')[0] == name && Split(s, '_')[1] == version
  {
    var t := s[|name| + 1..];
    FirstField(s, name, t);
    assert t[..|version|] == version;
    LeadField(t, version);
  }

  /** A text `name_t` splits into name and then the fields of t. */
  lemma FirstField(s: string, name: string, t: string)
    requires '_' !in name && |name| < |s| && s[..|name|] == name && s[|name|] == '_' && t == s[|name| + 1..]
    ensures Split(s, '_') == [name] + Split(t, '_')
  {
    FindFirst(s, '_', |name|);
    SplitAt(s, '_', |name|, name, t);
  }

  /** A text that begins with a field and then ends or has `_` has that field first. */
  lemma LeadField(t: string, field: string)
    requires '_' !in field && |field| <= |t| && t[..|field|] == field
    requires |field| == |t| || t[|field|] == '_'
    ensures Split(t, '_')[0] == field
  {
    if |field| < |t| {
      FindFirst(t, '_', |field|);
    } else {
      assert t == field;
    }
  }

  // ---------------------------------------------------------------------
  // Depends elements

  /** One parsed `Depends` element, in the order `parse_depends` returns it. */
  datatype Depend = Depend(name: string, version: string, relation: string)

  /** The last i with s[i] == a and s[i + 1] == b. */
  function LastPair(s: string, a: char, b: char): (r: Option<nat>)
    ensures r.Some? ==> r.value + 1 < |s| && s[r.value] == a && s[r.value + 1] == b
    ensures r.Some? ==> forall j :: r.value < j < |s| - 1 ==> !(s[j] == a && s[j + 1] == b)
    ensures r.None? ==> forall j :: 0 <= j < |s| - 1 ==> !(s[j] == a && s[j + 1] == b)
    decreases |s|
  {
    if |s| < 2 then None
    else if s[|s| - 2] == a && s[|s| - 1] == b then Some(|s| - 2)
    else
      var r := LastPair(s[..|s| - 1], a, b);
      assert forall j :: 0 <= j < |s| - 1 ==> s[..|s| - 1][j] == s[j];
      r
  }

  /**
   * Positions i < j < k at which `(.*) \((.*) (.*)\)` can match a line:
   * ` (` at i, a space at j after it, and `)` at k after that.
   */
  ghost predicate Fits(line: string, i: int, j: int, k: int) {
    0 <= i && i + 2 <= j < k < |line|
    && line[i] == ' ' && line[i + 1] == '(' && line[j] == ' ' && line[k] == ')'
  }

  /**
   * Where `re.match("(.*) \\((.*) (.*)\\)", line)` splits a line without
   * newlines: at the last `)`, the last space before it, and the last ` (`
   * before that.
   */
  function MatchAt(line: string): Option<(nat, nat, nat)>
  {
    match FindLast(line, ')')
    case None => None
    case Some(k) =>
      match FindLast(line[..k], ' ')
      case None => None
      case Some(j) =>
        match LastPair(line[..k][..j], ' ', '(')
        case None => None
        case Some(i) => Some((i, j, k))
  }

  /** The groups of the match, in the order `parse_depends` keeps them: (1, 3, 2). */
  function MatchRelation(line: string): Option<Depend>
  {
    match MatchAt(line)
    case None => None
    case Some((i, j, k)) =>
      if i + 2 <= j < k <= |line| then Some(Depend(line[..i], line[j + 1..k], line[i + 2..j]))
      else None
  }

  /**
   * The match is the one Python's backtracking finds: there is one iff some
   * positions fit, and then its positions are the greatest fitting ones in
   * the order the groups are tried: the longest first group, then the
   * longest second, then the longest third.
   */
  lemma MatchIsGreedy(line: string)
    ensures MatchAt(line).None? ==> forall i, j, k :: !Fits(line, i, j, k)
    ensures MatchAt(line).Some? ==>
      var (i, j, k) := MatchAt(line).value;
      && Fits(line, i, j, k)
      && forall i', j', k' :: Fits(line, i', j', k') ==>
           i' < i || (i' == i && (j' < j || (j' == j && k' <= k)))
  {
    forall i, j, k | Fits(line, i, j, k)
      ensures MatchAt(line).Some?
    {
      FitBounds(line, i, j, k);
    }
    if MatchAt(line).Some? {
      var (i, j, k) := MatchAt(line).value;
      assert line[..k][j] == ' ';
      assert line[..k][..j][i] == ' ' && line[..k][..j][i + 1] == '(';
      assert Fits(line, i, j, k);
      forall i', j', k' | Fits(line, i', j', k')
        ensures i' < i || (i' == i && (j' < j || (j' == j && k' <= k)))
      {
        FitBounds(line, i', j', k');
      }
    }
  }

  /** Any fitting positions lie at or before the ones the match picks. */
  lemma FitBounds(line: string, i: int, j: int, k: int)
    requires Fits(line, i, j, k)
    ensures MatchAt(line).Some?
    ensures var (i0, j0, k0) := MatchAt(line).value; i <= i0 && j <= j0 && k <= k0
  {
    assert line[k] == ')';
    var last := FindLast(line, ')').value;
    LastBefore(line, ')', last, k);
    var head := line[..last];
    assert head[j] == ' ';
    var sp := FindLast(head, ' ').value;
    LastBefore(head, ' ', sp, j);
    var front := head[..sp];
    assert front[i] == ' ' && front[i + 1] == '(';
  }

  /** Whatever c sits at p, p is at most the last c. */
  lemma LastBefore(s: string, c: char, last: nat, p: nat)
    requires FindLast(s, c) == Some(last) && p < |s| && s[p] == c
    ensures p <= last
  {
  }

  /** `parse_depends` for one element: the match on the stripped element, else the element alone. */
  function ParseDepend(d: string): Depend {
    var s := Strip(d, Bytes);
    match MatchRelation(Before(s, '\n'))
    case Some(dep) => dep
    case None => Depend(s, "", "")
  }

  /** `parse_depends`: one element parsed after another. */
  function DependsOf(content: seq<string>): (r: seq<Depend>)
    ensures |r| == |content|
  {
    seq(|content|, i requires 0 <= i < |content| => ParseDepend(content[i]))
  }

  /** The body of the loop of `parse_depends`: match the stripped element, or keep it whole. */
  method ParseOne(element: string) returns (dep: Depend)
    ensures dep == ParseDepend(element)
    ensures ')' !in element ==> dep == Depend(Strip(element, Bytes), "", "")
  {
    var d := Strip(element, Bytes);
    var m := MatchRelation(Before(d, '\n'));
    if m.Some? {
      dep := m.value;
    } else {
      dep := Depend(d, "", "");
    }
    if ')' !in element {
      PlainDepend(element);
    }
  }

  /** The loop of `parse_depends`: one tuple per element, in order. */
  method ParseDepends(content: seq<string>) returns (depends: seq<Depend>)
    ensures depends == DependsOf(content)
  {
    depends := [];
    for i := 0 to |content|
      invariant |depends| == i
      invariant forall j :: 0 <= j < i ==> depends[j] == ParseDepend(content[j])
    {
      var dep := ParseOne(content[i]);
      DependsStep(content, depends, i, dep);
      depends := depends + [dep];
    }
  }

  /** Appending the parse of the next element keeps the parsed prefix. */
  lemma DependsStep(content: seq<string>, depends: seq<Depend>, i: nat, dep: Depend)
    requires i < |content| && |depends| == i
    requires forall j :: 0 <= j < i ==> depends[j] == ParseDepend(content[j])
    requires dep == ParseDepend(content[i])
    ensures forall j :: 0 <= j < i + 1 ==> (depends + [dep])[j] == ParseDepend(content[j])
  {
    forall j | 0 <= j < i + 1 ensures (depends + [dep])[j] == ParseDepend(content[j]) {
      if j < i {
        assert (depends + [dep])[j] == depends[j];
      }
    }
  }

  /**
   * `NAME (REL VER)` parses into (NAME, VER, REL), with the version before
   * the relation, whenever the relation and the version hold no space, the
   * version no `)`, and the name does not start with whitespace.
   */
  lemma DependRoundTrip(name: string, relation: string, version: string)
    requires name != [] && !IsSpace(name[0], Bytes) && '\n' !in name
    requires ' ' !in relation && '\n' !in relation
    requires ' ' !in version && ')' !in version && '\n' !in version
    ensures ParseDepend(name + " (" + relation + " " + version + ")") == Depend(name, version, relation)
  {
    DeclarationPieces(name, relation, version);
    ParseDeclaration(name + " (" + relation + " " + version + ")", name, relation, version);
  }

  /** A line laid out as `NAME (REL VER)` parses into its pieces. */
  lemma ParseDeclaration(s: string, name: string, relation: string, version: string)
    requires |s| == |name| + |relation| + |version| + 4
    requires s[..|name|] == name && s[|name|] == ' ' && s[|name| + 1] == '('
    requires s[|name| + 2..|name| + 2 + |relation|] == relation && s[|name| + 2 + |relation|] == ' '
    requires s[|name| + 3 + |relation|..|s| - 1] == version && s[|s| - 1] == ')'
    requires name != [] && !IsSpace(name[0], Bytes) && '\n' !in name
    requires ' ' !in relation && '\n' !in relation
    requires ' ' !in version && ')' !in version && '\n' !in version
    ensures ParseDepend(s) == Depend(name, version, relation)
  {
    var j := |name| + 2 + |relation|;
    DeclaredLine(s, name, relation, version);
    DeclaredMatch(s, |name|, j, relation, version);
    MatchGroups(s, |name|, j, |s| - 1);
  }

  /** The groups are the slices between the positions of the match. */
  lemma MatchGroups(line: string, i: nat, j: nat, k: nat)
    requires MatchAt(line) == Some((i, j, k)) && i + 2 <= j < k < |line|
    ensures MatchRelation(line) == Some(Depend(line[..i], line[j + 1..k], line[i + 2..j]))
  {
  }

  /** Where the pieces of `NAME (REL VER)` sit. */
  lemma DeclarationPieces(name: string, relation: string, version: string)
    ensures var s := name + " (" + relation + " " + version + ")";
      var j := |name| + 2 + |relation|;
      && |s| == j + |version| + 2
      && s[..|name|] == name && s[|name|] == ' ' && s[|name| + 1] == '('
      && s[|name| + 2..j] == relation && s[j] == ' '
      && s[j + 1..|s| - 1] == version && s[|s| - 1] == ')'
  {
  }

  /** The declaration is its own stripped first line. */
  lemma DeclaredLine(s: string, name: string, relation: string, version: string)
    requires |s| == |name| + |relation| + |version| + 4
    requires s[..|name|] == name && s[|name|] == ' ' && s[|name| + 1] == '('
    requires s[|name| + 2..|name| + 2 + |relation|] == relation && s[|name| + 2 + |relation|] == ' '
    requires s[|name| + 3 + |relation|..|s| - 1] == version && s[|s| - 1] == ')'
    requires name != [] && !IsSpace(name[0], Bytes) && '\n' !in name
    requires '\n' !in relation && '\n' !in version
    ensures Before(Strip(s, Bytes), '\n') == s
  {
    assert s[0] == name[0];
    StripTrimmed(s, Bytes);
    var j := |name| + 2 + |relation|;
    forall p | 0 <= p < |s| ensures s[p] != '\n' {
      if p < |name| { assert s[p] == s[..|name|][p]; }
      else if p < |name| + 2 { }
      else if p < j { assert s[p] == s[|name| + 2..j][p - |name| - 2]; }
      else if p == j { }
      else if p < |s| - 1 { assert s[p] == s[j + 1..|s| - 1][p - j - 1]; }
    }
  }

  /** The match of a declaration splits it at the ` (`, the space and the `)` it was built with. */
  lemma DeclaredMatch(s: string, n: nat, j: nat, relation: string, version: string)
    requires j == n + 2 + |relation| && |s| == j + |version| + 2
    requires s[n] == ' ' && s[n + 1] == '(' && s[n + 2..j] == relation && s[j] == ' '
    requires s[j + 1..|s| - 1] == version && s[|s| - 1] == ')'
    requires ' ' !in relation && ' ' !in version && ')' !in version
    ensures MatchAt(s) == Some((n, j, |s| - 1))
  {
    var k := |s| - 1;
    assert s[k + 1..] == [];
    LastIs(s, ')', k);
    var head := s[..k];
    assert head[j] == ' ';
    assert head[j + 1..] == version;
    LastIs(head, ' ', j);
    var front := head[..j];
    assert front[n] == ' ' && front[n + 1] == '(';
    assert front[n + 2..] == relation;
    NoPairAfter(front, n, relation);
  }

  /** c at p and none after it: p is the last c. */
  lemma LastIs(s: string, c: char, p: nat)
    requires p < |s| && s[p] == c && c !in s[p + 1..]
    ensures FindLast(s, c) == Some(p)
  {
    var last := FindLast(s, c).value;
    LastBefore(s, c, p, last);
    LastBefore(s, c, last, p);
  }

  /** In `NAME (REL` with no space in REL, the last ` (` is the one after NAME. */
  lemma NoPairAfter(front: string, n: nat, relation: string)
    requires n + 2 <= |front| && front[n] == ' ' && front[n + 1] == '(' && front[n + 2..] == relation
    requires ' ' !in relation
    ensures LastPair(front, ' ', '(') == Some(n)
  {
    forall p | n < p < |front| - 1 ensures !(front[p] == ' ' && front[p + 1] == '(')
    {
      if p > n + 1 {
        assert front[p] == front[n + 2..][p - n - 2];
      }
    }
  }

  /** An element with no `)` is kept whole, stripped, with neither version nor relation. */
  lemma PlainDepend(d: string)
    requires ')' !in d
    ensures ParseDepend(d) == Depend(Strip(d, Bytes), "", "")
  {
    var s := Strip(d, Bytes);
    var line := Before(s, '\n');
    StripSub(d);
  }

  /** Strip keeps only characters of the text. */
  lemma StripSub(d: string)
    ensures forall c :: c in Strip(d, Bytes) ==> c in d
  {
    TrimLeftKept(d, Spaces(Bytes));
    TrimRightKept(TrimLeft(d, Spaces(Bytes)), Spaces(Bytes));
    var l := TrimLeft(d, Spaces(Bytes));
    forall c | c in Strip(d, Bytes) ensures c in d {
      var p :| 0 <= p < |Strip(d, Bytes)| && Strip(d, Bytes)[p] == c;
      assert l[p] == c;
      assert d[|d| - |l| + p] == c;
    }
  }

  // ---------------------------------------------------------------------
  // Dependencies of a package

  /** The control fields `info` reads. */
  datatype Control = Control(version: string, depends: Option<string>)

  /**
   * The alternative taken from a group: the first whose name, as `name`
   * gives it, exists, or, when none does, the last one.
   */
  function Choice<T>(alts: seq<T>, name: T -> string, available: string -> bool): string
    requires |alts| >= 1
    decreases |alts|
  {
    if |alts| == 1 || available(name(alts[0])) then name(alts[0]) else Choice(alts[1..], name, available)
  }

  /** The first alternative whose name exists is chosen. */
  lemma {:induction false} ChoiceFirst<T>(alts: seq<T>, name: T -> string, available: string -> bool, i: nat)
    requires i < |alts| && available(name(alts[i]))
    requires forall j :: 0 <= j < i ==> !available(name(alts[j]))
    ensures Choice(alts, name, available) == name(alts[i])
    decreases i
  {
    if i > 0 {
      ChoiceFirst(alts[1..], name, available, i - 1);
    }
  }

  /** When no alternative's name exists, the last alternative is chosen. */
  lemma {:induction false} ChoiceLast<T>(alts: seq<T>, name: T -> string, available: string -> bool)
    requires |alts| >= 1
    requires forall j :: 0 <= j < |alts| ==> !available(name(alts[j]))
    ensures Choice(alts, name, available) == name(alts[|alts| - 1])
    decreases |alts|
  {
    if |alts| > 1 {
      ChoiceLast(alts[1..], name, available);
    }
  }

  /** The inner loop of `info` and of `get_package_spec`: stop at the first alternative that exists. */
  method ChooseAlternative<T>(alts: seq<T>, name: T -> string, available: string -> bool) returns (depname: string)
    requires |alts| >= 1
    ensures depname == Choice(alts, name, available)
  {
    var i := 0;
    depname := name(alts[0]);
    while !available(depname) && i + 1 < |alts|
      invariant 0 <= i < |alts|
      invariant depname == name(alts[i])
      invariant Choice(alts[i..], name, available) == Choice(alts, name, available)
      decreases |alts| - i
    {
      assert alts[i..][1..] == alts[i + 1..];
      i := i + 1;
      depname := name(alts[i]);
    }
  }

  /** The name `info` looks up for one alternative. */
  function AltName(d: Depend): string {
    ParseName(d.name)
  }

  /** The package one `Depends` element asks for. */
  function DepName(depend: Depend, available: string -> bool): string {
    if '|' in depend.name then
      Choice(DependsOf(Split(depend.name, '|')), AltName, available)
    else ParseName(depend.name)
  }

  /** The names the elements ask for, one per element, as `name` maps each. */
  function DepSet(elements: seq<Depend>, name: Depend -> string): set<string>
  {
    if elements == [] then {}
    else DepSet(elements[..|elements| - 1], name) + {name(elements[|elements| - 1])}
  }

  /** A name is in the set exactly when some element asks for it. */
  lemma {:induction false} DepSetMembers(elements: seq<Depend>, name: Depend -> string, x: string)
    ensures x in DepSet(elements, name) <==> exists i :: 0 <= i < |elements| && name(elements[i]) == x
  {
    if elements != [] {
      var front := elements[..|elements| - 1];
      DepSetMembers(front, name, x);
      if exists i :: 0 <= i < |front| && name(front[i]) == x {
        var i :| 0 <= i < |front| && name(front[i]) == x;
        assert elements[i] == front[i];
      }
      if exists i :: 0 <= i < |elements| && name(elements[i]) == x {
        var i :| 0 <= i < |elements| && name(elements[i]) == x;
        if i < |front| {
          assert front[i] == elements[i];
        }
      }
    }
  }

  /** The naming rule of `info` for a given pool. */
  function Namer(available: string -> bool): Depend -> string {
    d => DepName(d, available)
  }

  /** The dependency set of a `Depends` field. */
  function DepsOfField(field: string, available: string -> bool): set<string>
  {
    DepSet(DependsOf(Split(field, ',')), Namer(available))
  }

  /** The body of the loop of `info`: the name one element asks for. */
  method DependName(depend: Depend, available: string -> bool) returns (depname: string)
    ensures depname == DepName(depend, available)
  {
    if '|' in depend.name {
      var alts := ParseDepends(Split(depend.name, '|'));
      depname := ChooseAlternative(alts, AltName, available);
    } else {
      depname := ParseName(depend.name);
    }
  }

  /** One more element adds the name it asks for. */
  lemma DepSetStep(elements: seq<Depend>, i: nat, name: Depend -> string)
    requires i < |elements|
    ensures DepSet(elements[..i + 1], name) == DepSet(elements[..i], name) + {name(elements[i])}
  {
    assert elements[..i + 1][..i] == elements[..i];
  }

  /** The loop of `info` over the parsed elements. */
  method CollectDeps(elements: seq<Depend>, available: string -> bool) returns (deps: set<string>)
    ensures deps == DepSet(elements, Namer(available))
  {
    deps := {};
    for i := 0 to |elements|
      invariant deps == DepSet(elements[..i], Namer(available))
    {
      var depname := DependName(elements[i], available);
      DepSetStep(elements, i, Namer(available));
      deps := deps + {depname};
    }
    assert elements[..|elements|] == elements;
  }

  /**
   * `info`: the package's version and the names of the packages it
   * depends on, one per `Depends` element; no field, no dependencies.
   */
  method Info(control: Control, available: string -> bool) returns (version: string, deps: set<string>)
    ensures version == control.version
    ensures control.depends.None? ==> deps == {}
    ensures control.depends.Some? ==> deps == DepsOfField(control.depends.value, available)
  {
    version := control.version;
    deps := {};
    if control.depends.Some? {
      var elements := ParseDepends(Split(control.depends.value, ','));
      deps := CollectDeps(elements, available);
    }
  }
}
