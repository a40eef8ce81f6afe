/**
 * The TurnKey version string (share/turnkey-version.py): the first line of
 * a Debian changelog, `NAME (VERSION) DIST;`, gives the codename and the
 * distribution, and the version printed is `codename + tag + "-" + dist +
 * "-x86"`.
 */
module TurnkeyVersion {
  import opened Wrappers
  import opened Text

  /** `\) (\w+);` matches at the start of `t`. */
  predicate Closes(t: string) {
    |t| >= 2 && t[0] == ')' && t[1] == ' ' &&
    var w := RunLength(t[2..], IsWordChar);
    w > 0 && 2 + w < |t| && t[2 + w] == ';'
  }

  /** The `(\w+)` group of a closing part. */
  function DistOf(t: string): (d: string)
    requires Closes(t)
    ensures |d| > 0
  {
    t[2..2 + RunLength(t[2..], IsWordChar)]
  }

  /**
   * The lazy `(.*?)`: the first position from `k` on where the closing part
   * matches, never crossing a newline (`.` does not match one).
   */
  function LazyEnd(line: string, k: nat): (r: Option<nat>)
    requires k <= |line|
    ensures r.Some? ==> k <= r.value <= |line| && Closes(line[r.value..])
    decreases |line| - k
  {
    if Closes(line[k..]) then Some(k)
    else if k < |line| && line[k] != '\n' then LazyEnd(line, k + 1)
    else None
  }

  /**
   * Where the groups of re.match(r'(\S+) \((.*?)\) (\w+);', line) end: the
   * name group at `n`, the version group at `k`.
   */
  function MatchEnds(line: string): (r: Option<(nat, nat)>)
    ensures r.Some? ==> var (n, k) := r.value;
      0 < n && n + 2 <= k <= |line| && line[n] == ' ' && line[n + 1] == '(' && Closes(line[k..])
  {
    var n := RunLength(line, NotSpace);
    if n == 0 || n + 2 > |line| || line[n] != ' ' || line[n + 1] != '(' then None
    else match LazyEnd(line, n + 2)
      case None => None
      case Some(k) => Some((n, k))
  }

  /** The three groups, if the pattern matches. */
  function MatchFirstLine(line: string): Option<(string, string, string)> {
    match MatchEnds(line)
    case None => None
    case Some((n, k)) => Some((line[..n], line[n + 2..k], DistOf(line[k..])))
  }

  /** The start of a changelog entry. */
  function Heading(name: string, version: string, dist: string): string {
    name + " (" + version + ") " + dist + ";"
  }

  /**
   * The pattern accepts `line` with these groups: a non-empty run of non-space
   * characters, a version on one line, and a non-empty word.
   */
  predicate Fits(line: string, name: string, version: string, dist: string) {
    |name| > 0 && NoSpace(name) && '\n' !in version && |dist| > 0 && AllWord(dist) &&
    IsPrefix(Heading(name, version, dist), line)
  }

  /** Where the pieces of a heading sit in a line that starts with it. */
  lemma HeadingPieces(line: string, name: string, version: string, dist: string)
    requires IsPrefix(Heading(name, version, dist), line)
    ensures var a := |name|; var k := a + 2 + |version|;
      k + 3 + |dist| <= |line| &&
      line[..a] == name && line[a] == ' ' && line[a + 1] == '(' && line[a + 2..k] == version &&
      line[k] == ')' && line[k + 1] == ' ' && line[k + 2..k + 2 + |dist|] == dist &&
      line[k + 2 + |dist|] == ';'
  {
    var h := Heading(name, version, dist);
    var a := |name|;
    var k := a + 2 + |version|;
    assert line[..|h|] == h;
    assert h == name + [' ', '('] + version + [')', ' '] + dist + [';'];
    assert h[..a] == name;
    assert h[a + 2..k] == version;
    assert h[k + 2..k + 2 + |dist|] == dist;
  }

  /** A closing part `) DIST;...` matches with DIST as its group. */
  lemma ClosesAt(t: string, dist: string)
    requires |t| >= 3 + |dist| && t[0] == ')' && t[1] == ' ' && t[2..2 + |dist|] == dist
    requires |dist| > 0 && AllWord(dist) && t[2 + |dist|] == ';'
    ensures Closes(t) && DistOf(t) == dist
  {
    var u := t[2..];
    forall i | 0 <= i < |dist| ensures IsWordChar(u[i]) {
      assert u[i] == t[2..2 + |dist|][i];
    }
    assert u[|dist|] == ';';
    RunLengthExact(u, IsWordChar, |dist|);
  }

  /** The name group is the leading run of non-space characters. */
  lemma NameRun(line: string, name: string)
    requires |name| < |line| && line[..|name|] == name && NoSpace(name) && line[|name|] == ' '
    ensures RunLength(line, NotSpace) == |name|
  {
    forall i | 0 <= i < |name| ensures NotSpace(line[i]) {
      assert line[i] == line[..|name|][i];
    }
    RunLengthExact(line, NotSpace, |name|);
  }

  /** The lazy search stops at a position where the closing part matches, before any newline. */
  lemma {:induction false} LazyEndSound(line: string, k: nat)
    requires k <= |line| && LazyEnd(line, k).Some?
    ensures '\n' !in line[k..LazyEnd(line, k).value]
    decreases |line| - k
  {
    if !Closes(line[k..]) {
      LazyEndSound(line, k + 1);
      var j := LazyEnd(line, k).value;
      assert line[k..j] == [line[k]] + line[k + 1..j];
    }
  }

  /** The lazy search finds a position no later than any position where the closing part matches. */
  lemma {:induction false} LazyEndFirst(line: string, k: nat, j: nat)
    requires k <= j <= |line| && Closes(line[j..]) && '\n' !in line[k..j]
    ensures LazyEnd(line, k).Some? && LazyEnd(line, k).value <= j
    decreases j - k
  {
    if k < j && !Closes(line[k..]) {
      assert line[k] == line[k..j][0];
      assert line[k + 1..j] == line[k..j][1..];
      LazyEndFirst(line, k + 1, j);
    }
  }

  /** A line with the separators of a heading in place starts with the heading of its pieces. */
  lemma HeadingAt(line: string, a: nat, k: nat, dist: string)
    requires a + 2 <= k && k + 3 + |dist| <= |line| && line[k + 2..k + 2 + |dist|] == dist
    requires line[a] == ' ' && line[a + 1] == '(' && line[k] == ')' && line[k + 1] == ' ' && line[k + 2 + |dist|] == ';'
    ensures IsPrefix(Heading(line[..a], line[a + 2..k], dist), line)
  {
    var w := |dist|;
    var name, version := line[..a], line[a + 2..k];
    var h := Heading(name, version, dist);
    assert h == name + [' ', '('] + version + [')', ' '] + dist + [';'];
    assert |h| == k + 3 + w;
    forall i | 0 <= i < |h| ensures h[i] == line[i] {
      if i < a {
        assert h[i] == name[i];
      } else if a + 2 <= i < k {
        assert h[i] == version[i - a - 2];
      } else if k + 2 <= i < k + 2 + w {
        assert h[i] == dist[i - k - 2];
      }
    }
    assert line[..|h|] == h;
  }

  /** The closing part is `) `, a non-empty word, and `;`. */
  lemma ClosesPieces(t: string)
    requires Closes(t)
    ensures 3 + |DistOf(t)| <= |t| && t[2 + |DistOf(t)|] == ';'
    ensures AllWord(DistOf(t)) && DistOf(t) == t[2..2 + |DistOf(t)|]
  {
    var u := t[2..];
    RunLengthProps(u, IsWordChar);
    var d := DistOf(t);
    forall i | 0 <= i < |d| ensures IsWordChar(d[i]) {
      assert d[i] == u[i];
    }
  }

  /** The name group holds no whitespace. */
  lemma NameNoSpace(line: string)
    ensures NoSpace(line[..RunLength(line, NotSpace)])
  {
    RunLengthProps(line, NotSpace);
    var n := RunLength(line, NotSpace);
    forall i | 0 <= i < n ensures !IsSpace(line[..n][i], Bytes) {
      assert line[..n][i] == line[i];
    }
  }

  /** Whatever the pattern returns is a way of reading the line that the pattern accepts. */
  lemma MatchSound(line: string)
    requires MatchFirstLine(line).Some?
    ensures var (name, version, dist) := MatchFirstLine(line).value; Fits(line, name, version, dist)
  {
    var (n, k) := MatchEnds(line).value;
    assert LazyEnd(line, n + 2) == Some(k) && n == RunLength(line, NotSpace);
    assert MatchFirstLine(line).value == (line[..n], line[n + 2..k], DistOf(line[k..]));
    LazyEndSound(line, n + 2);
    NameNoSpace(line);
    FitsAt(line, n, k);
  }

  /** The groups the match cuts at `n` and `k` are a reading the pattern accepts. */
  lemma FitsAt(line: string, n: nat, k: nat)
    requires 0 < n && n + 2 <= k <= |line| && line[n] == ' ' && line[n + 1] == '(' && Closes(line[k..])
    requires NoSpace(line[..n]) && '\n' !in line[n + 2..k]
    ensures Fits(line, line[..n], line[n + 2..k], DistOf(line[k..]))
  {
    DistAt(line, k);
    HeadingAt(line, n, k, DistOf(line[k..]));
  }

  /** Where the closing part found at `k` puts its dist and its `;` in the line. */
  lemma DistAt(line: string, k: nat)
    requires k <= |line| && Closes(line[k..])
    ensures var w := |DistOf(line[k..])|;
      k + 3 + w <= |line| && line[k] == ')' && line[k + 1] == ' ' && line[k + 2 + w] == ';' &&
      DistOf(line[k..]) == line[k + 2..k + 2 + w] && AllWord(DistOf(line[k..]))
  {
    var t := line[k..];
    ClosesPieces(t);
    var w := |DistOf(t)|;
    assert line[k + 2 + w] == t[2 + w];
    assert t[2..2 + w] == line[k + 2..k + 2 + w];
  }

  /** Where the groups of a reading the pattern accepts end, against where the match puts them. */
  lemma MatchEndsOfFit(line: string, name: string, version: string, dist: string)
    requires Fits(line, name, version, dist)
    ensures MatchEnds(line).Some?
    ensures MatchEnds(line).value.0 == |name|
    ensures MatchEnds(line).value.1 <= |name| + 2 + |version|
  {
    var a := |name|;
    var k := a + 2 + |version|;
    HeadingPieces(line, name, version, dist);
    NameRun(line, name);
    ClosesAfter(line, k, dist);
    LazyEndFirst(line, a + 2, k);
    MatchEndsAt(line, a, k);
  }

  /** The closing part of a heading, found where the line has it. */
  lemma ClosesAfter(line: string, k: nat, dist: string)
    requires k + 3 + |dist| <= |line| && line[k] == ')' && line[k + 1] == ' '
    requires line[k + 2..k + 2 + |dist|] == dist && |dist| > 0 && AllWord(dist) && line[k + 2 + |dist|] == ';'
    ensures Closes(line[k..]) && DistOf(line[k..]) == dist
  {
    var t := line[k..];
    assert t[2..2 + |dist|] == dist;
    ClosesAt(t, dist);
  }

  /** With the name run ending at `a` before ` (`, the match ends its groups at `a` and at the lazy stop. */
  lemma MatchEndsAt(line: string, a: nat, k: nat)
    requires 0 < a && a + 2 <= |line| && RunLength(line, NotSpace) == a && line[a] == ' ' && line[a + 1] == '('
    requires LazyEnd(line, a + 2).Some? && LazyEnd(line, a + 2).value <= k
    ensures MatchEnds(line).Some? && MatchEnds(line).value.0 == a && MatchEnds(line).value.1 <= k
  {
  }

  /**
   * Any reading the pattern accepts has the name the match returns, a version no shorter than
   * the one returned (the version group is lazy), and when the versions agree the same dist.
   */
  lemma MatchLeftmostShortest(line: string, name: string, version: string, dist: string)
    requires Fits(line, name, version, dist)
    ensures MatchFirstLine(line).Some?
    ensures MatchFirstLine(line).value.0 == name
    ensures |MatchFirstLine(line).value.1| <= |version|
    ensures |MatchFirstLine(line).value.1| == |version| ==> MatchFirstLine(line).value == (name, version, dist)
  {
    MatchEndsOfFit(line, name, version, dist);
    HeadingPieces(line, name, version, dist);
    var (n, j) := MatchEnds(line).value;
    var k := n + 2 + |version|;
    if j == k {
      ClosesAt(line[k..], dist);
    }
  }

  /**
   * A heading whose version holds no `)` reads back as its name, version and dist: the lazy
   * group cannot stop earlier, since every earlier stop needs a `)`.
   */
  lemma HeadingRoundTrip(name: string, version: string, dist: string, rest: string)
    requires |name| > 0 && NoSpace(name) && '\n' !in version && ')' !in version
    requires |dist| > 0 && AllWord(dist)
    ensures MatchFirstLine(Heading(name, version, dist) + rest) == Some((name, version, dist))
  {
    var line := Heading(name, version, dist) + rest;
    assert IsPrefix(Heading(name, version, dist), line);
    FitRoundTrip(line, name, version, dist);
  }

  /** A line the pattern accepts with a version free of `)` matches with exactly those groups. */
  lemma FitRoundTrip(line: string, name: string, version: string, dist: string)
    requires Fits(line, name, version, dist) && ')' !in version
    ensures MatchFirstLine(line) == Some((name, version, dist))
  {
    MatchLeftmostShortest(line, name, version, dist);
    HeadingPieces(line, name, version, dist);
    var j := MatchEnds(line).value.1;
    CloseAfterVersion(line, |name|, version, j);
  }

  /** With no `)` in the version, the closing part cannot match inside it. */
  lemma CloseAfterVersion(line: string, a: nat, version: string, j: nat)
    requires a + 2 + |version| <= |line| && line[a + 2..a + 2 + |version|] == version && ')' !in version
    requires a + 2 <= j <= |line| && Closes(line[j..])
    ensures j >= a + 2 + |version|
  {
    forall i | a + 2 <= i < a + 2 + |version| ensures line[i] != ')' {
      assert line[i] == version[i - a - 2];
    }
    assert line[j..][0] == line[j];
  }

  /** parse_changelog; `content` is None when the changelog does not exist. */
  function ParseChangelog(path: string, content: Option<string>): Result<(string, string, string), string> {
    if content.None? then Err("changelog does not exist '" + path + "'")
    else match MatchFirstLine(FirstLine(content.value))
      case None => Err("couldn't parse changelog '" + path + "'")
      case Some(groups) => Ok(groups)
  }

  /** get_turnkey_version: a non-empty override replaces the changelog's dist. */
  function GetTurnkeyVersion(path: string, content: Option<string>, distOverride: Option<string>, tag: string)
    : Result<string, string>
  {
    match ParseChangelog(path, content)
    case Err(e) => Err(e)
    case Ok((codename, _, dist)) =>
      var d := if distOverride.Some? && distOverride.value != "" then distOverride.value else dist;
      Ok(codename + tag + "-" + d + "-x86")
  }

  /** A missing changelog and an unreadable first line are both errors, naming the file. */
  lemma ChangelogErrors(path: string, content: Option<string>)
    ensures content.None? ==> ParseChangelog(path, content) == Err("changelog does not exist '" + path + "'")
    ensures content.Some? && MatchFirstLine(FirstLine(content.value)).None? ==>
      ParseChangelog(path, content) == Err("couldn't parse changelog '" + path + "'")
    ensures ParseChangelog(path, content).Ok? ==>
      (content.Some? &&
       var (name, version, dist) := ParseChangelog(path, content).value;
       Fits(FirstLine(content.value), name, version, dist))
  {
    if content.Some? && MatchFirstLine(FirstLine(content.value)).Some? {
      MatchSound(FirstLine(content.value));
    }
  }

  /**
   * A changelog starting with a heading gives codename, tag, dist (or the override) and the
   * architecture; the version in the heading plays no part.
   */
  lemma VersionFromHeading(path: string, name: string, version: string, dist: string, rest: string,
                           distOverride: Option<string>, tag: string)
    requires |name| > 0 && NoSpace(name) && '\n' !in version && ')' !in version
    requires |dist| > 0 && AllWord(dist)
    ensures var d := if distOverride.Some? && distOverride.value != "" then distOverride.value else dist;
      GetTurnkeyVersion(path, Some(Heading(name, version, dist) + rest), distOverride, tag) ==
      Ok(name + tag + "-" + d + "-x86")
  {
    NewlineFree(name, version, dist);
    FirstLineAfter(Heading(name, version, dist), rest);
    HeadingRoundTrip(name, version, dist, FirstLine(rest));
  }

  /** A heading's own characters hold no newline. */
  lemma NewlineFree(name: string, version: string, dist: string)
    requires NoSpace(name) && '\n' !in version && AllWord(dist)
    ensures '\n' !in Heading(name, version, dist)
  {
    var h := Heading(name, version, dist);
    assert h == name + [' ', '('] + version + [')', ' '] + dist + [';'];
    forall j | 0 <= j < |h| ensures h[j] != '\n' {
      if j < |name| {
        assert h[j] == name[j];
      } else if |name| + 2 <= j < |name| + 2 + |version| {
        assert h[j] == version[j - |name| - 2];
      } else if |name| + 4 + |version| <= j < |h| - 1 {
        assert h[j] == dist[j - |name| - 4 - |version|];
      }
    }
  }
}
