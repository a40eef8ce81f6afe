/**
 * Plan declarations, as read by `_parse_plan_file` (fablib and pylib) and by
 * `calculate_plan`: one declaration per line, `#` starts a comment, a
 * declaration `!name` retracts an earlier `name`, and any other declaration
 * adds itself to the plan.
 */
module PlanText {
  import opened Text

  /** A line with its `#` comment removed and surrounding whitespace stripped. */
  function Declaration(line: string, f: Flavor): string {
    Strip(Before(line, '#'), f)
  }

  predicate IsRetraction(d: string) {
    d != [] && d[0] == '!'
  }

  /** The plan after one more declaration. */
  function Apply(packages: set<string>, d: string): (r: set<string>)
    ensures d == [] ==> r == packages
    ensures IsRetraction(d) ==> r == packages - {d[1..]}
    ensures d != [] && !IsRetraction(d) ==> r == packages + {d}
  {
    if d == [] then packages
    else if IsRetraction(d) then packages - {d[1..]}
    else packages + {d}
  }

  /** The declarations of a sequence of lines, one per line. */
  function Declarations(lines: seq<string>, f: Flavor): (ds: seq<string>)
    ensures |ds| == |lines|
    ensures forall i :: 0 <= i < |lines| ==> ds[i] == Declaration(lines[i], f)
  {
    seq(|lines|, i requires 0 <= i < |lines| => Declaration(lines[i], f))
  }

  /** The plan that a sequence of declarations builds, read from first to last. */
  function PlanOf(ds: seq<string>): set<string>
    decreases |ds|
  {
    if ds == [] then {}
    else Apply(PlanOf(ds[..|ds| - 1]), ds[|ds| - 1])
  }

  /** The warning `calculate_plan` emits for a retraction of an undeclared name. */
  function RetractionWarning(package: string): string {
    "retraction failed. package was not declared: " + package
  }

  /** The warning a declaration draws: only a retraction of a name not in the plan. */
  function Warning(packages: set<string>, d: string): seq<string> {
    if IsRetraction(d) && d[1..] !in packages then [RetractionWarning(d[1..])] else []
  }

  /** The warnings emitted while reading the declarations, in order. */
  function WarningsOf(ds: seq<string>): seq<string>
    decreases |ds|
  {
    if ds == [] then []
    else
      var prefix := ds[..|ds| - 1];
      var d := ds[|ds| - 1];
      WarningsOf(prefix) + Warning(PlanOf(prefix), d)
  }

  /**
   * Reads the declarations line by line into a set, warning about each
   * retraction of a name that is not declared at that point.
   */
  method CalculatePlan(lines: seq<string>, f: Flavor) returns (packages: set<string>, warnings: seq<string>)
    ensures packages == PlanOf(Declarations(lines, f))
    ensures warnings == WarningsOf(Declarations(lines, f))
  {
    ghost var ds := Declarations(lines, f);
    packages := {};
    warnings := [];
    var i := 0;
    while i < |lines|
      invariant 0 <= i <= |lines|
      invariant packages == PlanOf(ds[..i])
      invariant warnings == WarningsOf(ds[..i])
    {
      PlanStep(ds, i);
      var d := Declaration(lines[i], f);
      var warned;
      packages, warned := CalculateDeclaration(packages, d);
      warnings := warnings + warned;
      i := i + 1;
    }
    assert ds[..|lines|] == ds;
  }

  /** The body of that loop: the declaration read into the set, and the warning it draws. */
  method CalculateDeclaration(packages: set<string>, d: string) returns (next: set<string>, warned: seq<string>)
    ensures next == Apply(packages, d)
    ensures warned == Warning(packages, d)
  {
    next, warned := packages, [];
    if d != [] {
      if d[0] == '!' {
        var package := d[1..];
        if package in next {
          next := next - {package};
        } else {
          warned := [RetractionWarning(package)];
        }
      } else {
        next := next + {d};
      }
    }
  }

  /**
   * `_parse_plan_file` (the same in fablib and pylib): the same reading
   * without warnings, where retracting an undeclared name is a silent no-op.
   */
  method ParsePlanFile(lines: seq<string>, f: Flavor) returns (packages: set<string>)
    ensures packages == PlanOf(Declarations(lines, f))
  {
    ghost var ds := Declarations(lines, f);
    packages := {};
    var i := 0;
    while i < |lines|
      invariant 0 <= i <= |lines|
      invariant packages == PlanOf(ds[..i])
    {
      PlanStep(ds, i);
      packages := ReadDeclaration(packages, Declaration(lines[i], f));
      i := i + 1;
    }
    assert ds[..|lines|] == ds;
  }

  /** The body of that loop: one declaration read into the set. */
  method ReadDeclaration(packages: set<string>, expr: string) returns (next: set<string>)
    ensures next == Apply(packages, expr)
  {
    next := packages;
    if expr != [] {
      if expr[0] == '!' {
        var package := expr[1..];
        if package in next {
          next := next - {package};
        }
      } else {
        next := next + {expr};
      }
    }
  }

  lemma PlanStep(ds: seq<string>, i: nat)
    requires i < |ds|
    ensures PlanOf(ds[..i + 1]) == Apply(PlanOf(ds[..i]), ds[i])
    ensures WarningsOf(ds[..i + 1]) == WarningsOf(ds[..i]) + Warning(PlanOf(ds[..i]), ds[i])
  {
    assert ds[..i + 1][..i] == ds[..i];
  }

  // ---------------------------------------------------------------------
  // What the declarations mean

  /** Declaration i is x, and no later declaration retracts it. */
  ghost predicate DeclaredAt(ds: seq<string>, x: string, i: int) {
    0 <= i < |ds| && ds[i] == x
    && forall j :: i < j < |ds| ==> ds[j] != "!" + x
  }

  /**
   * A name is in the plan exactly when some line declares it and no later line
   * retracts it.
   */
  lemma {:induction false} PlanMembership(ds: seq<string>, x: string)
    ensures x in PlanOf(ds) <==> x != [] && !IsRetraction(x) && exists i :: DeclaredAt(ds, x, i)
    decreases |ds|
  {
    if ds != [] {
      var prefix := ds[..|ds| - 1];
      var last := |ds| - 1;
      var d := ds[last];
      PlanMembership(prefix, x);
      if x in PlanOf(ds) {
        if d == x {
          assert DeclaredAt(ds, x, last);
        } else {
          assert x in PlanOf(prefix);
          var i :| DeclaredAt(prefix, x, i);
          assert d != "!" + x;
          assert DeclaredAt(ds, x, i);
        }
      } else if x != [] && !IsRetraction(x) {
        forall i | 0 <= i < last
          ensures !DeclaredAt(ds, x, i)
        {
          if DeclaredAt(ds, x, i) {
            assert DeclaredAt(prefix, x, i);
          }
        }
      }
    }
  }

  /** A retraction leaves its name out of the plan, whether or not it was declared. */
  lemma RetractionRemoves(ds: seq<string>, d: string)
    requires IsRetraction(d)
    ensures d[1..] !in PlanOf(ds + [d])
    ensures PlanOf(ds + [d]) == PlanOf(ds) - {d[1..]}
  {
    assert (ds + [d])[..|ds|] == ds;
  }

  /** Retracting a name that is not declared changes nothing, and only warns. */
  lemma RetractionOfUndeclared(ds: seq<string>, d: string)
    requires IsRetraction(d) && d[1..] !in PlanOf(ds)
    ensures PlanOf(ds + [d]) == PlanOf(ds)
    ensures WarningsOf(ds + [d]) == WarningsOf(ds) + [RetractionWarning(d[1..])]
  {
    assert (ds + [d])[..|ds|] == ds;
  }

  /** Blank and comment-only lines change nothing. */
  lemma BlankLine(ds: seq<string>)
    ensures PlanOf(ds + [[]]) == PlanOf(ds)
    ensures WarningsOf(ds + [[]]) == WarningsOf(ds)
  {
    assert (ds + [[]])[..|ds|] == ds;
  }

  /** Text after `#` and surrounding whitespace are not part of a declaration. */
  lemma DeclarationOf(d: string, comment: string, f: Flavor)
    requires Strip(d, f) == d && '#' !in d
    ensures Declaration(d + "#" + comment, f) == d
  {
    var line := d + "#" + comment;
    assert line[|d|] == '#' && line[..|d|] == d;
    FindFirst(line, '#', |d|);
  }

  /** The result depends on order: a declaration after a retraction brings the name back. */
  lemma RedeclareAfterRetraction(ds: seq<string>, x: string)
    requires x != [] && !IsRetraction(x)
    ensures x in PlanOf(ds + ["!" + x, x])
    ensures x !in PlanOf(ds + [x, "!" + x])
  {
    assert ("!" + x)[1..] == x;
    var a := ds + ["!" + x, x];
    assert a[..|a| - 1] == ds + ["!" + x];
    var b := ds + [x, "!" + x];
    assert b[..|b| - 1] == ds + [x];
  }
}
