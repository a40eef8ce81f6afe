/**
 * The release package (share/make-release-deb.py): the name and version
 * are read from the first line of a Debian changelog, and the control file
 * of the package is a fixed template with those two filled in.
 */
module ReleaseDeb {
  import opened Wrappers
  import opened Text
  import Paths

  /** The characters `[-+0-9a-z.]` that may follow the first one of a package name. */
  predicate IsNameChar(c: char) {
    c == '-' || c == '+' || '0' <= c <= '9' || 'a' <= c <= 'z' || c == '.'
  }

  /** The end of the name group `(\w[-+0-9a-z.]*)` at the start of `line`, 0 when it cannot start. */
  function NameEnd(line: string): (n: nat)
    ensures n <= |line|
  {
    if line != [] && IsWordChar(line[0]) then 1 + RunLength(line[1..], IsNameChar) else 0
  }

  /**
   * Where the groups of re.match('^(\w[-+0-9a-z.]*) \((\S+)\)', line) end:
   * the name at `n`; the version, greedy over non-space characters, backs up
   * to the last `)` of that run, at `n + 2 + l`.
   */
  function MatchEnds(line: string): (r: Option<(nat, nat)>)
    ensures r.Some? ==> var (n, l) := r.value;
      0 < n && 0 < l && n + 2 + l < |line| && line[n] == ' ' && line[n + 1] == '(' && line[n + 2 + l] == ')'
  {
    var n := NameEnd(line);
    if n == 0 || n + 2 > |line| || line[n] != ' ' || line[n + 1] != '(' then None
    else
      var t := line[n + 2..];
      var m := RunLength(t, NotSpace);
      match Paths.FindLast(t[..m], ')')
      case None => None
      case Some(l) =>
        if l == 0 then None
        else
          assert t[l] == t[..m][l];
          Some((n, l))
  }

  /** The name and version groups, if the pattern matches. */
  function MatchFirstLine(line: string): Option<(string, string)> {
    match MatchEnds(line)
    case None => None
    case Some((n, l)) => Some((line[..n], line[n + 2..n + 2 + l]))
  }

  /** A package name the name group accepts in full. */
  predicate IsName(name: string) {
    |name| > 0 && IsWordChar(name[0]) && forall i :: 1 <= i < |name| ==> IsNameChar(name[i])
  }

  /** The start of a changelog entry, up to the version's closing parenthesis. */
  function Heading(name: string, version: string): string {
    name + " (" + version + ")"
  }

  /** The pattern accepts `line` with these groups. */
  predicate Fits(line: string, name: string, version: string) {
    IsName(name) && |version| > 0 && NoSpace(version) && IsPrefix(Heading(name, version), line)
  }

  /** Where the pieces of a heading sit in a line that starts with it. */
  lemma HeadingPieces(line: string, name: string, version: string)
    requires IsPrefix(Heading(name, version), line)
    ensures |name| + 3 + |version| <= |line|
    ensures line[..|name|] == name && line[|name|] == ' ' && line[|name| + 1] == '('
    ensures line[|name| + 2..|name| + 2 + |version|] == version && line[|name| + 2 + |version|] == ')'
  {
    var h := Heading(name, version);
    var a := |name|;
    assert line[..|h|] == h;
    assert h == name + [' ', '('] + version + [')'];
    assert h[..a] == name;
    assert h[a + 2..a + 2 + |version|] == version;
  }

  /** A line with the separators in place starts with the heading of its pieces. */
  lemma HeadingAt(line: string, a: nat, l: nat)
    requires a + 3 + l <= |line| && line[a] == ' ' && line[a + 1] == '(' && line[a + 2 + l] == ')'
    ensures IsPrefix(Heading(line[..a], line[a + 2..a + 2 + l]), line)
  {
    var name, version := line[..a], line[a + 2..a + 2 + l];
    var h := Heading(name, version);
    assert h == name + [' ', '('] + version + [')'];
    forall i | 0 <= i < |h| ensures h[i] == line[i] {
      if i < a {
        assert h[i] == name[i];
      } else if a + 2 <= i < a + 2 + l {
        assert h[i] == version[i - a - 2];
      }
    }
    assert line[..|h|] == h;
  }

  /** The name group ends where the name ends, when a space follows it. */
  lemma NameEndOf(line: string, name: string)
    requires IsName(name) && |name| < |line| && line[..|name|] == name && line[|name|] == ' '
    ensures NameEnd(line) == |name|
  {
    var u := line[1..];
    assert line[0] == name[0];
    forall i | 0 <= i < |name| - 1 ensures IsNameChar(u[i]) {
      assert u[i] == name[i + 1];
    }
    assert u[|name| - 1] == ' ';
    RunLengthExact(u, IsNameChar, |name| - 1);
  }

  /** The name group is a name. */
  lemma NameEndIsName(line: string)
    requires NameEnd(line) > 0
    ensures IsName(line[..NameEnd(line)])
  {
    var n := NameEnd(line);
    var u := line[1..];
    RunLengthProps(u, IsNameChar);
    forall i | 1 <= i < n ensures IsNameChar(line[..n][i]) {
      assert line[..n][i] == u[i - 1];
    }
  }

  /** Whatever the pattern returns is a way of reading the line that the pattern accepts. */
  lemma MatchSound(line: string)
    requires MatchFirstLine(line).Some?
    ensures Fits(line, MatchFirstLine(line).value.0, MatchFirstLine(line).value.1)
  {
    MatchEndsFacts(line);
    FitsAt(line, MatchEnds(line).value.0, MatchEnds(line).value.1);
  }

  /** The name group ends where NameEnd says, and the version group holds no space. */
  lemma MatchEndsFacts(line: string)
    requires MatchEnds(line).Some?
    ensures var (n, l) := MatchEnds(line).value;
      n == NameEnd(line) && forall i :: n + 2 <= i < n + 2 + l ==> NotSpace(line[i])
  {
    var (n, l) := MatchEnds(line).value;
    var t := line[n + 2..];
    var m := RunLength(t, NotSpace);
    RunLengthProps(t, NotSpace);
    assert Paths.FindLast(t[..m], ')') == Some(l);
    forall i | n + 2 <= i < n + 2 + l ensures NotSpace(line[i]) {
      assert line[i] == t[i - n - 2];
    }
  }

  /** The groups ending at `n` and at `n + 2 + l`, with the separators in place, are a reading the pattern accepts. */
  lemma FitsAt(line: string, n: nat, l: nat)
    requires 0 < n == NameEnd(line) && 0 < l && n + 3 + l <= |line|
    requires line[n] == ' ' && line[n + 1] == '(' && line[n + 2 + l] == ')'
    requires forall i :: n + 2 <= i < n + 2 + l ==> NotSpace(line[i])
    ensures Fits(line, line[..n], line[n + 2..n + 2 + l])
  {
    NameEndIsName(line);
    var version := line[n + 2..n + 2 + l];
    forall i | 0 <= i < l ensures !IsSpace(version[i], Bytes) {
      assert version[i] == line[n + 2 + i];
    }
    HeadingAt(line, n, l);
  }

  /**
   * In a text whose first `v` characters are not spaces and are followed by `)`, the greedy
   * non-space group ends at a `)` no earlier than `v`.
   */
  lemma GreedyClose(t: string, v: nat)
    requires v < |t| && t[v] == ')' && forall i :: 0 <= i < v ==> NotSpace(t[i])
    ensures var m := RunLength(t, NotSpace);
      v < m && Paths.FindLast(t[..m], ')').Some? && v <= Paths.FindLast(t[..m], ')').value
  {
    var m := RunLength(t, NotSpace);
    RunLengthProps(t, NotSpace);
    if m <= v {
      assert false;
    }
    var u := t[..m];
    assert u[v] == ')';
    var l := Paths.FindLast(u, ')').value;
    if l < v {
      assert false;
    }
  }

  /**
   * Any reading the pattern accepts has the name the match returns and a version no longer
   * than the one returned: the version group is greedy.
   */
  lemma MatchGreedy(line: string, name: string, version: string)
    requires Fits(line, name, version)
    ensures MatchFirstLine(line).Some?
    ensures MatchFirstLine(line).value.0 == name
    ensures |version| <= |MatchFirstLine(line).value.1|
  {
    HeadingPieces(line, name, version);
    NameEndOf(line, name);
    GreedyAt(line, |name|, version);
  }

  /** With the name ending at `a` and a version of non-space characters closed by `)`, the match ends its version no earlier. */
  lemma GreedyAt(line: string, a: nat, version: string)
    requires 0 < a == NameEnd(line) && a + 3 + |version| <= |line| && line[a] == ' ' && line[a + 1] == '('
    requires line[a + 2..a + 2 + |version|] == version && line[a + 2 + |version|] == ')'
    requires |version| > 0 && NoSpace(version)
    ensures MatchEnds(line).Some? && MatchEnds(line).value.0 == a && |version| <= MatchEnds(line).value.1
  {
    var t := line[a + 2..];
    forall i | 0 <= i < |version| ensures NotSpace(t[i]) {
      assert t[i] == version[i];
    }
    GreedyClose(t, |version|);
  }

  /**
   * A heading followed by a space or nothing reads back as its name and version when the
   * version holds no space (the changelog's own `name (version) dist` form).
   */
  lemma HeadingRoundTrip(name: string, version: string, rest: string)
    requires IsName(name) && |version| > 0 && NoSpace(version)
    requires rest == [] || IsSpace(rest[0], Bytes)
    ensures MatchFirstLine(Heading(name, version) + rest) == Some((name, version))
  {
    var h := Heading(name, version);
    var line := h + rest;
    assert IsPrefix(h, line);
    assert h == name + [' ', '('] + version + [')'];
    assert |line| == |h| || line[|h|] == rest[0];
    FitRoundTrip(line, name, version);
  }

  /** A reading the pattern accepts whose closing `)` is followed by a space or the end is the match. */
  lemma FitRoundTrip(line: string, name: string, version: string)
    requires Fits(line, name, version)
    requires var e := |name| + 3 + |version|; e == |line| || (e < |line| && IsSpace(line[e], Bytes))
    ensures MatchFirstLine(line) == Some((name, version))
  {
    MatchGreedy(line, name, version);
    HeadingPieces(line, name, version);
    MatchEndsFacts(line);
    var (n, l) := MatchEnds(line).value;
    var e := |name| + 3 + |version|;
    assert n == |name|;
    assert e < |line| ==> IsSpace(line[e], Bytes);
  }

  /** parse_changelog: the name and version from the changelog's first line. */
  function ParseChangelog(content: string): Result<(string, string), string> {
    var firstline := FirstLine(content);
    match MatchFirstLine(firstline)
    case None => Err("can't parse first line of changelog:\n" + firstline)
    case Some(groups) => Ok(groups)
  }

  /** The text of a file whose lines are `lines`, each ended by a newline. */
  function Lines(lines: seq<string>): string
    decreases |lines|
  {
    if |lines| == 0 then "" else lines[0] + "\n" + Lines(lines[1..])
  }

  /** The template's fixed maintainer line. */
  const MaintainerLine: string := "Maintainer: " + "Liraz Siri " + "<liraz@" + "turnkeylinux.org>"

  /** The lines of the control template with the name and version substituted. */
  function ControlFields(name: string, version: string): seq<string> {
    ["Package: " + name,
     "Version: " + version,
     "Architecture: all",
     MaintainerLine,
     "Installed-Size: 4",
     "Section: misc",
     "Priority: optional",
     "Description: " + name + " release"]
  }

  /** The DEBIAN/control text written for the release package. */
  function ControlText(name: string, version: string): string {
    Lines(ControlFields(name, version))
  }

  /** A file's text is its lines joined by newlines, with an empty piece after the last newline. */
  lemma {:induction false} LinesJoin(lines: seq<string>)
    ensures Lines(lines) == Join(lines + [""], "\n")
    decreases |lines|
  {
    if |lines| > 0 {
      LinesJoin(lines[1..]);
      assert (lines + [""])[1..] == lines[1..] + [""];
      JoinCons(lines[0], lines[1..] + [""], "\n");
      assert [lines[0]] + (lines[1..] + [""]) == lines + [""];
    }
  }

  /** Splitting a file at newlines gives its lines and then the empty text after the last newline. */
  lemma LinesSplit(lines: seq<string>)
    requires forall i :: 0 <= i < |lines| ==> '\n' !in lines[i]
    ensures Split(Lines(lines), '\n') == lines + [""]
  {
    LinesJoin(lines);
    assert "\n" == ['\n'];
    var parts := lines + [""];
    forall i | 0 <= i < |parts| ensures '\n' !in parts[i] {
      if i < |lines| {
        assert parts[i] == lines[i];
      }
    }
    SplitJoin(parts, '\n');
  }

  lemma ConcatFree(a: string, b: string)
    requires '\n' !in a && '\n' !in b
    ensures '\n' !in a + b
  {
  }

  lemma MaintainerFree()
    ensures '\n' !in MaintainerLine
  {
    ConcatFree("Maintainer: ", "Liraz Siri ");
    ConcatFree("Maintainer: " + "Liraz Siri ", "<liraz@");
    ConcatFree("Maintainer: " + "Liraz Siri " + "<liraz@", "turnkeylinux.org>");
  }

  lemma FixedFree()
    ensures '\n' !in "Architecture: all" && '\n' !in "Installed-Size: 4"
    ensures '\n' !in "Section: misc" && '\n' !in "Priority: optional"
  {
  }

  /** No template line holds a newline when the name and the version hold none. */
  lemma FieldsFree(name: string, version: string)
    requires '\n' !in name && '\n' !in version
    ensures forall i :: 0 <= i < 8 ==> '\n' !in ControlFields(name, version)[i]
  {
    ConcatFree("Package: ", name);
    ConcatFree("Version: ", version);
    ConcatFree("Description: ", name);
    ConcatFree("Description: " + name, " release");
    MaintainerFree();
    FixedFree();
  }

  /**
   * The control file holds, line by line, the package name, the version, the fixed
   * architecture, maintainer, size, section and priority, and the description naming the
   * package; nothing else.
   */
  lemma ControlTextLines(name: string, version: string)
    requires '\n' !in name && '\n' !in version
    ensures Split(ControlText(name, version), '\n') == ControlFields(name, version) + [""]
  {
    FieldsFree(name, version);
    LinesSplit(ControlFields(name, version));
  }

  /** The control text make_release_deb writes for a changelog, or the parse error. */
  function ReleaseControl(content: string): Result<string, string> {
    match ParseChangelog(content)
    case Err(e) => Err(e)
    case Ok((name, version)) => Ok(ControlText(name, version))
  }

  /**
   * A changelog whose first line is `name (version) ...` yields a control file for that name
   * and version.
   */
  lemma ReleaseFromChangelog(name: string, version: string, rest: string)
    requires IsName(name) && |version| > 0 && NoSpace(version)
    requires rest == [] || IsSpace(rest[0], Bytes)
    ensures ParseChangelog(Heading(name, version) + rest) == Ok((name, version))
    ensures ReleaseControl(Heading(name, version) + rest) == Ok(ControlText(name, version))
  {
    var h := Heading(name, version);
    assert h == name + [' ', '('] + version + [')'];
    assert '\n' !in h by {
      forall i | 0 <= i < |h| ensures h[i] != '\n' {
        if i < |name| {
          assert h[i] == name[i];
          assert IsWordChar(name[0]) && (i >= 1 ==> IsNameChar(name[i]));
        } else if |name| + 2 <= i < |h| - 1 {
          assert h[i] == version[i - |name| - 2];
        }
      }
    }
    FirstLineAfter(h, rest);
    var r := FirstLine(rest);
    assert r == [] || r[0] == rest[0];
    HeadingRoundTrip(name, version, r);
  }
}
