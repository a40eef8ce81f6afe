/**
 * The plan linters (fablib/annotate.py, pylib/cmd_plan_lint.py and
 * pylib/cmd_plan_annotate.py) share one scheme: block and line comments are
 * dropped to find the declared packages; block comments are swapped for
 * `$key` placeholders while each line gets its description; then the
 * placeholders are swapped back. The linters differ only in whether trailing
 * `*` is trimmed and in how an empty plan sizes the column.
 */
module LintText {
  import opened Wrappers
  import opened Text

  // ---------------------------------------------------------------------
  // Comments

  /** The first index at or after from where the two characters a, b occur in a row. */
  function FindPair(s: string, a: char, b: char, from: nat): (r: Option<nat>)
    ensures r.Some? ==> from <= r.value && r.value + 1 < |s| && s[r.value] == a && s[r.value + 1] == b
    decreases |s| - from
  {
    if from + 1 >= |s| then None
    else if s[from] == a && s[from + 1] == b then Some(from)
    else FindPair(s, a, b, from + 1)
  }

  /** The characters a, b occur in a row at index k of s. */
  predicate PairAt(s: string, k: nat, a: char, b: char) {
    k + 1 < |s| && s[k] == a && s[k + 1] == b
  }

  /** The two characters a, b never occur in a row in s. */
  predicate NoPair(s: string, a: char, b: char) {
    forall k: nat :: k < |s| ==> !PairAt(s, k, a, b)
  }

  // `re.sub(r'(?s)/\*.*?\*/', '', s)`: from left to right, each `/*` and the
  // first `*/` after it are removed with all between them; a `/*` that is
  // never closed stays, and so does the rest of the text.
  function StripBlockComments(s: string): (r: string)
    ensures |r| <= |s|
    decreases |s|
  {
    match FindPair(s, '/', '*', 0)
    case None => s
    case Some(i) =>
      match FindPair(s, '*', '/', i + 2)
      case None => s
      case Some(j) => s[..i] + StripBlockComments(s[j + 2..])
  }

  /** The shifts of FindPair when the text is a prefix followed by more text. */
  lemma FindPairAt(s: string, a: char, b: char, from: nat, k: nat)
    requires from <= k && PairAt(s, k, a, b)
    requires forall m: nat :: from <= m < k ==> !PairAt(s, m, a, b)
    ensures FindPair(s, a, b, from) == Some(k)
    decreases k - from
  {
    if from < k {
      assert !PairAt(s, from, a, b);
      FindPairAt(s, a, b, from + 1, k);
    }
  }

  lemma FindPairNone(s: string, a: char, b: char, from: nat)
    requires forall m: nat :: from <= m < |s| ==> !PairAt(s, m, a, b)
    ensures FindPair(s, a, b, from).None?
    decreases |s| - from
  {
    if from + 1 < |s| {
      assert !PairAt(s, from, a, b);
      FindPairNone(s, a, b, from + 1);
    }
  }

  // A block comment is dropped with everything inside it: text without `/*`,
  // then `/*`, a body in which `*/` does not occur before its end, then `*/`.
  lemma BlockCommentDropped(a: string, body: string, b: string)
    requires NoPair(a, '/', '*') && NoPair(body + "*", '*', '/')
    ensures StripBlockComments(a + "/*" + body + "*/" + b) == a + StripBlockComments(b)
  {
    var s := a + "/*" + body + "*/" + b;
    var i := |a|;
    var j := |a| + 2 + |body|;
    forall m | 0 <= m < i
      ensures !PairAt(s, m, '/', '*')
    {
      if m + 1 < i {
        assert !PairAt(a, m, '/', '*');
        assert s[m] == a[m] && s[m + 1] == a[m + 1];
      } else {
        assert s[m + 1] == '/';
      }
    }
    FindPairAt(s, '/', '*', 0, i);
    forall m | i + 2 <= m < j
      ensures !PairAt(s, m, '*', '/')
    {
      var t := body + "*";
      assert !PairAt(t, m - i - 2, '*', '/');
      assert s[m] == t[m - i - 2] && s[m + 1] == t[m - i - 1];
    }
    FindPairAt(s, '*', '/', i + 2, j);
    assert s[..i] == a && s[j + 2..] == b;
  }

  // Text without `/*` has no block comment to drop.
  lemma NoBlockComment(s: string)
    requires NoPair(s, '/', '*')
    ensures StripBlockComments(s) == s
  {
    FindPairNone(s, '/', '*', 0);
  }

  /**
   * `re.sub(r'//.*', '', s)`: from each `//` to the end of its line; the
   * newline itself stays.
   */
  function CutLineComments(s: string): (r: string)
    decreases |s|, 1
  {
    match FindPair(s, '/', '/', 0)
    case None => s
    case Some(i) => CutFrom(s[..i], s[i..])
  }

  /** From a `//` on: the text before it, then what follows the comment from its newline on. */
  function CutFrom(before: string, comment: string): (r: string)
    requires comment != [] && comment[0] == '/'
    decreases |comment|, 0
  {
    match Find(comment, '\n')
    case None => before
    case Some(n) => before + CutLineComments(comment[n..])
  }

  /** One step of CutLineComments at its first `//`. */
  lemma CutAt(s: string, i: nat, before: string, comment: string)
    requires FindPair(s, '/', '/', 0) == Some(i) && before == s[..i] && comment == s[i..]
    ensures comment != [] && comment[0] == '/'
    ensures CutLineComments(s) == CutFrom(before, comment)
  {
  }

  /** A line comment goes up to the newline that ends it, which is kept. */
  lemma LineCommentDropped(a: string, comment: string, b: string)
    requires NoPair(a + "/", '/', '/') && '\n' !in comment
    ensures CutLineComments(a + "//" + comment + ("\n" + b)) == a + CutLineComments("\n" + b)
  {
    var nb := "\n" + b;
    var rest := "//" + (comment + nb);
    var s := a + rest;
    LineCommentPieces(a, comment, nb);
    FirstPair(a, rest);
    NewlineAfter(comment, nb);
    CutAt(s, |a|, a, rest);
  }

  lemma LineCommentPieces(a: string, comment: string, nb: string)
    ensures a + "//" + comment + nb == a + ("//" + (comment + nb))
    ensures var s := a + ("//" + (comment + nb));
      s[..|a|] == a && s[|a|..] == "//" + (comment + nb)
    ensures ("//" + (comment + nb))[2 + |comment|..] == nb
  {
  }

  /** The first `//` of `a` followed by `//` is the one that follows it, when `a` ends no `//` itself. */
  lemma FirstPair(a: string, rest: string)
    requires NoPair(a + "/", '/', '/') && |rest| >= 2 && rest[0] == '/' && rest[1] == '/'
    ensures FindPair(a + rest, '/', '/', 0) == Some(|a|)
  {
    var s := a + rest;
    forall m | 0 <= m < |a|
      ensures !PairAt(s, m, '/', '/')
    {
      var t := a + "/";
      assert !PairAt(t, m, '/', '/');
      assert s[m] == t[m] && s[m + 1] == t[m + 1];
    }
    FindPairAt(s, '/', '/', 0, |a|);
  }

  /** The comment's own text has no newline, so the first one is the one after it. */
  lemma NewlineAfter(comment: string, nb: string)
    requires '\n' !in comment && nb != [] && nb[0] == '\n'
    ensures Find("//" + (comment + nb), '\n') == Some(2 + |comment|)
  {
    var rest := "//" + (comment + nb);
    var n := 2 + |comment|;
    assert rest[n] == '\n';
    assert rest[..n] == "//" + comment;
    FindFirst(rest, '\n', n);
  }

  // ---------------------------------------------------------------------
  // parse_plan

  /**
   * A line as `parse_plan` reads it: the text before `#`, stripped, and with
   * trailing `*` trimmed when the linter does so.
   */
  function Entry(line: string, stars: bool, f: Flavor): string {
    var e := Strip(Before(line, '#'), f);
    if stars then TrimRight(e, IsStar) else e
  }

  /** A promotion marker. */
  predicate IsStar(c: char) {
    c == '*'
  }

  /** A retraction mark. */
  predicate IsBang(c: char) {
    c == '!'
  }

  /** The package an entry names: a leading `!` is dropped, but the name is still declared. */
  function Package(entry: string): string {
    if entry != [] && entry[0] == '!' then entry[1..] else entry
  }

  /** The entries of the lines, one per line. */
  function EntriesOf(lines: seq<string>, stars: bool, f: Flavor): (es: seq<string>)
    ensures |es| == |lines|
  {
    seq(|lines|, i requires 0 <= i < |lines| => Entry(lines[i], stars, f))
  }

  /** The packages of the lines, read from first to last. */
  function PackagesOf(lines: seq<string>, stars: bool, f: Flavor): set<string> {
    PackagesIn(EntriesOf(lines, stars, f))
  }

  /** The packages of a run of entries: each non-empty one adds its package. */
  function PackagesIn(entries: seq<string>): set<string>
    decreases |entries|
  {
    if entries == [] then {}
    else
      var e := entries[|entries| - 1];
      PackagesIn(entries[..|entries| - 1]) + (if e == [] then {} else {Package(e)})
  }

  /** The lines `parse_plan` reads: the plan split on newlines once its comments are gone. */
  function PlanLines(plan: string): seq<string> {
    Split(CutLineComments(StripBlockComments(plan)), '\n')
  }

  /**
   * `parse_plan`: the set of packages the plan declares, retracted or not.
   * `stars` tells whether trailing `*` is trimmed (fablib/annotate.py and
   * pylib/cmd_plan_annotate.py) or kept (pylib/cmd_plan_lint.py).
   */
  method ParsePlan(plan: string, stars: bool, f: Flavor) returns (packages: set<string>)
    ensures packages == PackagesOf(PlanLines(plan), stars, f)
  {
    var lines := PlanLines(plan);
    packages := {};
    var i := 0;
    while i < |lines|
      invariant 0 <= i <= |lines|
      invariant packages == PackagesOf(lines[..i], stars, f)
    {
      PackagesStep(lines, i, stars, f);
      packages := ReadEntry(packages, lines[i], stars, f);
      i := i + 1;
    }
    assert lines[..|lines|] == lines;
  }

  /** One line of `parse_plan`: a non-empty entry adds its package. */
  method ReadEntry(packages: set<string>, line: string, stars: bool, f: Flavor) returns (next: set<string>)
    ensures next == packages + (if Entry(line, stars, f) == [] then {} else {Package(Entry(line, stars, f))})
  {
    next := packages;
    var expr := Entry(line, stars, f);
    if expr != [] {
      var package;
      if expr[0] == '!' {
        package := expr[1..];
      } else {
        package := expr;
      }
      next := next + {package};
    }
  }

  lemma PackagesStep(lines: seq<string>, i: nat, stars: bool, f: Flavor)
    requires i < |lines|
    ensures var e := Entry(lines[i], stars, f);
      PackagesOf(lines[..i + 1], stars, f) == PackagesOf(lines[..i], stars, f) + (if e == [] then {} else {Package(e)})
  {
    EntriesAppend(lines[..i], lines[i], stars, f);
    assert lines[..i] + [lines[i]] == lines[..i + 1];
  }

  /** One more line puts its entry after the others. */
  lemma EntriesAppend(lines: seq<string>, line: string, stars: bool, f: Flavor)
    ensures var es := EntriesOf(lines, stars, f) + [Entry(line, stars, f)];
      EntriesOf(lines + [line], stars, f) == es && es[..|lines|] == EntriesOf(lines, stars, f)
  {
    assert EntriesOf(lines + [line], stars, f)[..|lines|] == EntriesOf(lines, stars, f);
  }

  /**
   * A name is declared exactly when some line's entry is non-empty and names
   * it, with or without a leading `!`.
   */
  lemma PackagesMembership(lines: seq<string>, stars: bool, p: string, f: Flavor)
    ensures p in PackagesOf(lines, stars, f) <==>
      exists i :: 0 <= i < |lines| && Entry(lines[i], stars, f) != [] && Package(Entry(lines[i], stars, f)) == p
  {
    var es := EntriesOf(lines, stars, f);
    if p in PackagesIn(es) {
      var i := PackageWitness(es, p);
      assert es[i] == Entry(lines[i], stars, f);
    } else {
      forall i | 0 <= i < |lines| && Entry(lines[i], stars, f) != []
        ensures Package(Entry(lines[i], stars, f)) != p
      {
        assert es[i] == Entry(lines[i], stars, f);
        PackageListed(es, i);
      }
    }
  }

  /** The entry a listed package comes from. */
  lemma {:induction false} PackageWitness(entries: seq<string>, p: string) returns (i: nat)
    requires p in PackagesIn(entries)
    ensures i < |entries| && entries[i] != [] && Package(entries[i]) == p
    decreases |entries|
  {
    var n := |entries| - 1;
    var e := entries[n];
    if e != [] && Package(e) == p {
      i := n;
    } else {
      i := PackageWitness(entries[..n], p);
      assert entries[..n][i] == entries[i];
    }
  }

  /** Every non-empty entry lists its package. */
  lemma {:induction false} PackageListed(entries: seq<string>, i: nat)
    requires i < |entries| && entries[i] != []
    ensures Package(entries[i]) in PackagesIn(entries)
    decreases |entries|
  {
    var n := |entries| - 1;
    if i < n {
      assert entries[..n][i] == entries[i];
      PackageListed(entries[..n], i);
    }
  }

  /** A retraction never removes anything: reading one more line only adds. */
  lemma NothingRetracted(lines: seq<string>, line: string, stars: bool, f: Flavor)
    ensures PackagesOf(lines, stars, f) <= PackagesOf(lines + [line], stars, f)
    ensures Entry(line, stars, f) != [] ==> Package(Entry(line, stars, f)) in PackagesOf(lines + [line], stars, f)
  {
    EntriesAppend(lines, line, stars, f);
  }

  // ---------------------------------------------------------------------
  // column_len

  /** The longest name's length, when there is a name: `max(len(p) for p in packages)`. */
  method MaxLen(packages: set<string>) returns (r: Option<nat>)
    ensures r.None? <==> packages == {}
    ensures r.Some? ==> forall p :: p in packages ==> |p| <= r.value
    ensures r.Some? ==> exists p :: p in packages && |p| == r.value
    ensures r.Some? ==> r.value == LongestName(packages)
  {
    r := None;
    var todo := packages;
    while todo != {}
      invariant todo <= packages
      invariant r.None? <==> todo == packages
      invariant r.Some? ==> forall p :: p in packages && p !in todo ==> |p| <= r.value
      invariant r.Some? ==> exists p :: p in packages && |p| == r.value
      decreases todo
    {
      var p :| p in todo;
      if r.None? || |p| > r.value {
        r := Some(|p|);
      }
      todo := todo - {p};
    }
    if r.Some? {
      SameLongest(packages, r.value);
    }
  }

  /** The longest name's length in a non-empty set, as a function. */
  ghost function LongestName(packages: set<string>): (n: nat)
    requires packages != {}
    ensures forall p :: p in packages ==> |p| <= n
    ensures exists p :: p in packages && |p| == n
    decreases packages
  {
    var p :| p in packages;
    if packages == {p} then |p|
    else
      var m := LongestName(packages - {p});
      if |p| > m then |p| else m
  }

  /** Any length that bounds every name and is some name's length is the longest. */
  lemma SameLongest(packages: set<string>, n: nat)
    requires forall p :: p in packages ==> |p| <= n
    requires exists p :: p in packages && |p| == n
    ensures n == LongestName(packages)
  {
    var p :| p in packages && |p| == n;
    var q :| q in packages && |q| == LongestName(packages);
  }

  // ---------------------------------------------------------------------
  // Block comments swapped for placeholders and back

  /** The text with each block comment replaced by `$` and its key, and each key's comment. */
  datatype Swapped = Swapped(text: string, comments: map<string, string>)

  // `re.sub(r'(?s)(/\*.*?\*/)', get_comment_key, plan)`: the same matches as
  // StripBlockComments, each replaced by `$` and its key; `comments` maps
  // each key to its comment, a later comment winning on a shared key.
  function Swap(s: string, key: string -> string): (r: Swapped)
    decreases |s|
  {
    match FindPair(s, '/', '*', 0)
    case None => Swapped(s, map[])
    case Some(i) =>
      match FindPair(s, '*', '/', i + 2)
      case None => Swapped(s, map[])
      case Some(j) =>
        var comment := s[i..j + 2];
        var rest := Swap(s[j + 2..], key);
        Swapped(s[..i] + (['$'] + (key(comment) + rest.text)), map[key(comment) := comment] + rest.comments)
  }

  /**
   * The same swap as the loop `re.sub` runs: each match is replaced in turn
   * while `get_comment_key` records its comment in `comments`.
   */
  method SwapComments(plan: string, key: string -> string, f: Flavor) returns (text: string, comments: map<string, string>)
    ensures Swapped(text, comments) == Swap(plan, key)
  {
    text, comments := "", map[];
    var rest := plan;
    var next := BlockComment(rest);
    while next.Some?
      invariant next == BlockComment(rest)
      invariant SwappedSoFar(plan, key, text, comments, rest)
      decreases |rest|
    {
      var (i, j) := next.value;
      SwapInvStep(plan, key, text, comments, rest, i, j, f);
      var comment := rest[i..j + 2];
      text := text + (rest[..i] + (['$'] + key(comment)));
      comments := comments[key(comment) := comment];
      rest := rest[j + 2..];
      next := BlockComment(rest);
    }
    SwapInvDone(plan, key, text, comments, rest);
    text := text + rest;
  }

  /** Where the first complete block comment starts, and where its closing `*` is. */
  function BlockComment(s: string): (r: Option<(nat, nat)>)
    ensures r.Some? ==> r.value.0 + 2 <= r.value.1 && r.value.1 + 2 <= |s|
  {
    match FindPair(s, '/', '*', 0)
    case None => None
    case Some(i) =>
      match FindPair(s, '*', '/', i + 2)
      case None => None
      case Some(j) => Some((i, j))
  }

  /** The loop's invariant: what is done, followed by the swap of the rest, is the swap of the plan. */
  ghost predicate SwappedSoFar(plan: string, key: string -> string, text: string, comments: map<string, string>, rest: string) {
    text + Swap(rest, key).text == Swap(plan, key).text
    && comments + Swap(rest, key).comments == Swap(plan, key).comments
  }

  /** The loop's step: one more placeholder in the text, one more comment recorded. */
  lemma SwapInvStep(plan: string, key: string -> string, text: string, comments: map<string, string>, rest: string, i: nat, j: nat, f: Flavor)
    requires SwappedSoFar(plan, key, text, comments, rest)
    requires BlockComment(rest) == Some((i, j))
    ensures i <= j + 2 <= |rest|
    ensures SwappedSoFar(plan, key, text + (rest[..i] + (['$'] + key(rest[i..j + 2]))),
      comments[key(rest[i..j + 2]) := rest[i..j + 2]], rest[j + 2..])
  {
    var before, comment, tail := rest[..i], rest[i..j + 2], rest[j + 2..];
    SwapAt(rest, i, j, before, comment, tail, key, f);
    SwapStep(text, comments, before, key(comment), comment, Swap(tail, key));
  }

  /** The loop's end: nothing left to swap. */
  lemma SwapInvDone(plan: string, key: string -> string, text: string, comments: map<string, string>, rest: string)
    requires SwappedSoFar(plan, key, text, comments, rest)
    requires BlockComment(rest).None?
    ensures Swapped(text + rest, comments) == Swap(plan, key)
  {
    NothingLeft(rest, key);
    assert comments + map[] == comments;
  }

  lemma SwapStep(text: string, comments: map<string, string>, before: string, k: string, comment: string, later: Swapped)
    ensures text + (before + (['$'] + (k + later.text))) == (text + (before + (['$'] + k))) + later.text
    ensures comments + (map[k := comment] + later.comments) == comments[k := comment] + later.comments
  {
  }

  /** A text without a complete block comment swaps to itself with no comments. */
  lemma NothingLeft(s: string, key: string -> string)
    requires FindPair(s, '/', '*', 0).None? || FindPair(s, '*', '/', FindPair(s, '/', '*', 0).value + 2).None?
    ensures Swap(s, key) == Swapped(s, map[])
  {
  }

  /**
   * `re.sub(r'\$(\S+)', lambda m: comments[m.group(1)], text)`: each `$`
   * followed by a run of non-whitespace is replaced by the comment under
   * that run; a run that is not a key raises KeyError (the run). A `$` with
   * whitespace or the end after it stays.
   */
  function Restore(s: string, comments: map<string, string>, f: Flavor): (r: Result<string, string>)
    decreases |s|, 1
  {
    match Find(s, '$')
    case None => Ok(s)
    case Some(i) => Placeholder(s[..i], s[i + 1..], comments, f)
  }

  /** Restoring from a `$`, given the text before it (restored already) and the text after it. */
  function Placeholder(before: string, after: string, comments: map<string, string>, f: Flavor): (r: Result<string, string>)
    decreases |after|, 2
  {
    var run := Word(after, f);
    if run == [] then
      match Restore(after, comments, f)
      case Err(k) => Err(k)
      case Ok(t) => Ok(before + "$" + t)
    else if run !in comments then Err(run)
    else
      match Restore(after[|run|..], comments, f)
      case Err(k) => Err(k)
      case Ok(t) => Ok(before + comments[run] + t)
  }

  /** Every block comment ends the text or is followed by whitespace. */
  predicate Separated(s: string, f: Flavor)
    decreases |s|
  {
    match FindPair(s, '/', '*', 0)
    case None => true
    case Some(i) =>
      match FindPair(s, '*', '/', i + 2)
      case None => true
      case Some(j) => (j + 2 == |s| || IsSpace(s[j + 2], f)) && Separated(s[j + 2..], f)
  }

  /** Keys as md5 hex digests are: never empty, free of whitespace, and distinct for distinct comments. */
  ghost predicate GoodKeys(key: string -> string, f: Flavor) {
    (forall c :: IsWord(key(c), f))
    && forall c, d :: key(c) == key(d) ==> c == d
  }

  lemma KeysDistinct(key: string -> string, c: string, d: string, f: Flavor)
    requires GoodKeys(key, f) && key(c) == key(d)
    ensures c == d
  {
  }

  /** Each key maps to a comment it is the key of. */
  lemma {:induction false} SwapKeys(s: string, key: string -> string, f: Flavor)
    ensures forall k :: k in Swap(s, key).comments ==> key(Swap(s, key).comments[k]) == k
    decreases |s|
  {
    match FindPair(s, '/', '*', 0) {
      case None =>
      case Some(i) =>
        match FindPair(s, '*', '/', i + 2) {
          case None =>
          case Some(j) =>
            var comment, tail := s[i..j + 2], s[j + 2..];
            SwapAt(s, i, j, s[..i], comment, tail, key, f);
            SwapKeys(tail, key, f);
            var all := Swap(s, key).comments;
            forall k | k in all
              ensures key(all[k]) == k
            {
              if k in Swap(tail, key).comments {
                assert all[k] == Swap(tail, key).comments[k];
              }
            }
        }
    }
  }

  /** Swapping keeps a leading whitespace character in front. */
  lemma SwapKeepsSpace(s: string, key: string -> string, f: Flavor)
    requires s != [] && IsSpace(s[0], f)
    ensures Swap(s, key).text != [] && Swap(s, key).text[0] == s[0]
  {
  }

  /** The run after `$` is the key when whitespace or the end follows it. */
  lemma WordOfKey(k: string, t: string, f: Flavor)
    requires IsWord(k, f) && (t == [] || IsSpace(t[0], f))
    ensures Word(k + t, f) == k
    decreases |k|
  {
    if |k| > 1 {
      assert (k + t)[1..] == k[1..] + t;
      WordOfKey(k[1..], t, f);
    } else {
      assert (k + t)[1..] == t;
    }
  }

  /**
   * Restoring with any map that agrees with the swap's comments gives the
   * original text back, when the text has no `$` of its own and every
   * comment ends the text or is followed by whitespace.
   */
  lemma {:induction false} SwapRestoreWith(s: string, key: string -> string, m: map<string, string>, f: Flavor)
    requires '$' !in s && Separated(s, f) && GoodKeys(key, f)
    requires forall k :: k in Swap(s, key).comments ==> k in m && m[k] == Swap(s, key).comments[k]
    ensures Restore(Swap(s, key).text, m, f) == Ok(s)
    decreases |s|
  {
    match FindPair(s, '/', '*', 0) {
      case None =>
        NothingSwapped(s, key, m, f);
      case Some(i) =>
        match FindPair(s, '*', '/', i + 2) {
          case None =>
            NothingSwapped(s, key, m, f);
          case Some(j) =>
            var before, comment, tail := s[..i], s[i..j + 2], s[j + 2..];
            SwapAt(s, i, j, before, comment, tail, key, f);
            PiecesFree(s, '$', i, j + 2);
            var rest := Swap(tail, key);
            SwapKeys(tail, key, f);
            CommentAgrees(key, comment, rest.comments, m, f);
            SwapRestoreWith(tail, key, m, f);
            if tail != [] {
              SwapKeepsSpace(tail, key, f);
            }
            RestoreKey(before, key(comment), rest.text, m, f);
            assert Restore(Swap(s, key).text, m, f) == Ok(before + comment + tail);
        }
    }
  }

  /** A text without a complete block comment swaps to itself, and restores to itself without `$`. */
  lemma NothingSwapped(s: string, key: string -> string, m: map<string, string>, f: Flavor)
    requires '$' !in s
    requires FindPair(s, '/', '*', 0).None? || FindPair(s, '*', '/', FindPair(s, '/', '*', 0).value + 2).None?
    ensures Swap(s, key).text == s && Restore(s, m, f) == Ok(s)
  {
  }

  /** One step of Swap, and the same step of Separated, at a block comment `s[i..j + 2]`. */
  lemma SwapAt(s: string, i: nat, j: nat, before: string, comment: string, tail: string, key: string -> string, f: Flavor)
    requires FindPair(s, '/', '*', 0) == Some(i) && FindPair(s, '*', '/', i + 2) == Some(j)
    requires before == s[..i] && comment == s[i..j + 2] && tail == s[j + 2..]
    ensures s == before + comment + tail
    ensures Swap(s, key).text == before + (['$'] + (key(comment) + Swap(tail, key).text))
    ensures Swap(s, key).comments == map[key(comment) := comment] + Swap(tail, key).comments
    ensures Separated(s, f) ==> Separated(tail, f) && (tail == [] || IsSpace(tail[0], f))
  {
    assert s == before + comment + tail;
    var r := Swap(s, key);
    assert r == Swapped(before + (['$'] + (key(comment) + Swap(tail, key).text)), map[key(comment) := comment] + Swap(tail, key).comments);
  }

  /**
   * A map that agrees with the comments of a swap step agrees with the
   * comments after it, and holds the step's own comment under its key.
   */
  lemma CommentAgrees(key: string -> string, comment: string, later: map<string, string>, m: map<string, string>, f: Flavor)
    requires GoodKeys(key, f)
    requires forall k :: k in later ==> key(later[k]) == k
    requires forall k :: k in map[key(comment) := comment] + later ==> k in m && m[k] == (map[key(comment) := comment] + later)[k]
    ensures key(comment) in m && m[key(comment)] == comment
    ensures forall k :: k in later ==> k in m && m[k] == later[k]
  {
    var all := map[key(comment) := comment] + later;
    forall k | k in later
      ensures k in m && m[k] == later[k]
    {
      assert all[k] == later[k];
    }
    var k := key(comment);
    assert k in all;
    if k in later {
      KeysDistinct(key, later[k], comment, f);
    }
  }

  /** A known key after `$` is replaced by its comment, and restoring goes on after it. */
  lemma RestoreKey(a: string, k: string, t: string, m: map<string, string>, f: Flavor)
    requires '$' !in a && IsWord(k, f) && (t == [] || IsSpace(t[0], f)) && k in m
    requires Restore(t, m, f).Ok?
    ensures Restore(a + (['$'] + (k + t)), m, f) == Ok(a + m[k] + Restore(t, m, f).value)
  {
    DollarAfter(a, k + t);
    RestoreAt(a + (['$'] + (k + t)), |a|, a, k + t, m, f);
    WordOfKey(k, t, f);
    assert (k + t)[|k|..] == t;
    KnownKey(a, k + t, k, t, m, f);
  }

  /** The first `$` of a text is the one after a `$`-free prefix. */
  lemma DollarAfter(a: string, tail: string)
    requires '$' !in a
    ensures var s := a + (['$'] + tail);
      Find(s, '$') == Some(|a|) && s[..|a|] == a && s[|a| + 1..] == tail
  {
    var s := a + (['$'] + tail);
    assert s[|a|] == '$' && s[..|a|] == a;
    FindFirst(s, '$', |a|);
    assert s[|a| + 1..] == tail;
  }

  /** Restore goes on at the first `$`. */
  lemma RestoreAt(s: string, i: nat, before: string, after: string, m: map<string, string>, f: Flavor)
    requires Find(s, '$') == Some(i) && before == s[..i] && after == s[i + 1..]
    ensures Restore(s, m, f) == Placeholder(before, after, m, f)
  {
  }

  /** A run that is a key is replaced by its comment. */
  lemma KnownKey(before: string, after: string, k: string, rest: string, m: map<string, string>, f: Flavor)
    requires Word(after, f) == k && k != [] && k in m && |k| <= |after| && rest == after[|k|..]
    requires Restore(rest, m, f).Ok?
    ensures Placeholder(before, after, m, f) == Ok(before + m[k] + Restore(rest, m, f).value)
  {
  }

  /** A `$` that begins a run which is not a key raises KeyError with that run. */
  lemma UnknownPlaceholder(a: string, run: string, b: string, comments: map<string, string>, f: Flavor)
    requires '$' !in a && IsWord(run, f) && run !in comments && (b == [] || IsSpace(b[0], f))
    ensures Restore(a + (['$'] + (run + b)), comments, f) == Err(run)
  {
    DollarAfter(a, run + b);
    RestoreAt(a + (['$'] + (run + b)), |a|, a, run + b, comments, f);
    WordOfKey(run, b, f);
  }

  // ---------------------------------------------------------------------
  // The formatting loop of plan_lint

  /** `re.search(r'#|\$|//', line) or line.strip() == ""`: lines copied as they are. */
  predicate Copied(line: string, f: Flavor) {
    '#' in line || '$' in line || FindPair(line, '/', '/', 0).Some? || Strip(line, f) == []
  }

  /**
   * The key of a line's description: the stripped line without its leading
   * `!` characters and, when `stars`, without its trailing `*` characters.
   */
  function DescriptionKey(expr: string, stars: bool): string {
    var k := TrimLeft(expr, IsBang);
    if stars then TrimRight(k, IsStar) else k
  }

  /** What a line shows: itself when copied, otherwise the padded expression, ` # ` and the description. */
  function Shown(line: string, width: nat, descriptions: map<string, string>, stars: bool, f: Flavor): (r: Result<string, string>)
    ensures r.Err? <==> !Copied(line, f) && DescriptionKey(Strip(line, f), stars) !in descriptions
    ensures r.Ok? && Copied(line, f) ==> r.value == line
    ensures r.Ok? && !Copied(line, f) ==> IsPrefix(Strip(line, f), r.value)
  {
    if Copied(line, f) then Ok(line)
    else
      var expr := Strip(line, f);
      var k := DescriptionKey(expr, stars);
      if k !in descriptions then Err(k)
      else Ok(LJust(expr, width) + " # " + descriptions[k])
  }

  /** The text the loop builds, one shown line and a newline per line; the first missing description raises. */
  function LintedOf(lines: seq<string>, width: nat, descriptions: map<string, string>, stars: bool, f: Flavor)
    : Result<string, string>
    decreases |lines|
  {
    if lines == [] then Ok("")
    else
      match LintedOf(lines[..|lines| - 1], width, descriptions, stars, f)
      case Err(k) => Err(k)
      case Ok(done) =>
        match Shown(lines[|lines| - 1], width, descriptions, stars, f)
        case Err(k) => Err(k)
        case Ok(shown) => Ok(done + shown + "\n")
  }

  /** The loop over the lines of the swapped plan, appending to `plan_linted`. */
  method LintLines(lines: seq<string>, width: nat, descriptions: map<string, string>, stars: bool, f: Flavor)
    returns (r: Result<string, string>)
    ensures r == LintedOf(lines, width, descriptions, stars, f)
  {
    var linted := "";
    var i := 0;
    while i < |lines|
      invariant 0 <= i <= |lines|
      invariant LintedOf(lines[..i], width, descriptions, stars, f) == Ok(linted)
    {
      LintedStep(lines, i, width, descriptions, stars, f);
      var line := lines[i];
      var shown;
      if '#' in line || '$' in line || FindPair(line, '/', '/', 0).Some? || Strip(line, f) == [] {
        shown := line;
      } else {
        var expr := Strip(line, f);
        var k := DescriptionKey(expr, stars);
        if k !in descriptions {
          assert Shown(line, width, descriptions, stars, f) == Err(k);
          LintedErrorPersists(lines, i + 1, width, descriptions, stars, f);
          return Err(k);
        }
        shown := LJust(expr, width) + " # " + descriptions[k];
      }
      assert Shown(line, width, descriptions, stars, f) == Ok(shown);
      linted := linted + shown + "\n";
      i := i + 1;
    }
    assert lines[..|lines|] == lines;
    return Ok(linted);
  }

  /** One more line extends the text by what it shows, or raises its missing key. */
  lemma LintedStep(lines: seq<string>, i: nat, width: nat, descriptions: map<string, string>, stars: bool, f: Flavor)
    requires i < |lines|
    ensures LintedOf(lines[..i + 1], width, descriptions, stars, f) ==
      match LintedOf(lines[..i], width, descriptions, stars, f)
      case Err(k) => Err(k)
      case Ok(done) =>
        match Shown(lines[i], width, descriptions, stars, f)
        case Err(k) => Err(k)
        case Ok(shown) => Ok(done + shown + "\n")
  {
    assert lines[..i + 1][..i] == lines[..i];
  }

  lemma {:induction false} LintedErrorPersists(lines: seq<string>, i: nat, width: nat, descriptions: map<string, string>, stars: bool, f: Flavor)
    requires i <= |lines| && LintedOf(lines[..i], width, descriptions, stars, f).Err?
    ensures LintedOf(lines, width, descriptions, stars, f) == LintedOf(lines[..i], width, descriptions, stars, f)
    decreases |lines| - i
  {
    if i < |lines| {
      assert lines[..i + 1][..i] == lines[..i];
      LintedErrorPersists(lines, i + 1, width, descriptions, stars, f);
    } else {
      assert lines[..i] == lines;
    }
  }

  /** The loop fails exactly when some line that is not copied has no description. */
  lemma {:induction false} LintedFails(lines: seq<string>, width: nat, descriptions: map<string, string>, stars: bool, f: Flavor)
    ensures LintedOf(lines, width, descriptions, stars, f).Err? <==>
      exists i :: 0 <= i < |lines| && Shown(lines[i], width, descriptions, stars, f).Err?
    decreases |lines|
  {
    if lines != [] {
      var prefix := lines[..|lines| - 1];
      LintedFails(prefix, width, descriptions, stars, f);
      assert forall i :: 0 <= i < |prefix| ==> prefix[i] == lines[i];
    }
  }

  /** The lines each line shows, when every line has its description. */
  function ShownAll(lines: seq<string>, width: nat, descriptions: map<string, string>, stars: bool, f: Flavor): (r: seq<string>)
    requires forall i :: 0 <= i < |lines| ==> Shown(lines[i], width, descriptions, stars, f).Ok?
    ensures |r| == |lines|
  {
    seq(|lines|, i requires 0 <= i < |lines| => Shown(lines[i], width, descriptions, stars, f).value)
  }

  /** Appending a piece and a separator to a join. */
  lemma JoinSnoc(parts: seq<string>, x: string, c: char)
    ensures Join(parts + [x, []], [c]) == Join(parts + [x], [c]) + [c]
    decreases |parts|
  {
    if parts == [] {
      assert [x, []][1..] == [[]];
    } else {
      assert (parts + [x, []])[1..] == parts[1..] + [x, []];
      assert (parts + [x])[1..] == parts[1..] + [x];
      JoinSnoc(parts[1..], x, c);
    }
  }

  /**
   * The output is the shown lines, each followed by a newline: joined by
   * newlines with one empty piece after the last.
   */
  lemma {:induction false} LintedJoin(lines: seq<string>, width: nat, descriptions: map<string, string>, stars: bool, f: Flavor)
    requires LintedOf(lines, width, descriptions, stars, f).Ok?
    ensures forall i :: 0 <= i < |lines| ==> Shown(lines[i], width, descriptions, stars, f).Ok?
    ensures LintedOf(lines, width, descriptions, stars, f).value
      == Join(ShownAll(lines, width, descriptions, stars, f) + [[]], "\n")
    decreases |lines|
  {
    LintedFails(lines, width, descriptions, stars, f);
    if lines != [] {
      var prefix, last := lines[..|lines| - 1], lines[|lines| - 1];
      var done := LintedOf(prefix, width, descriptions, stars, f);
      var x := Shown(last, width, descriptions, stars, f).value;
      assert done.Ok? && LintedOf(lines, width, descriptions, stars, f).value == done.value + x + "\n";
      LintedJoin(prefix, width, descriptions, stars, f);
      var before := ShownAll(prefix, width, descriptions, stars, f);
      ShownAllSnoc(lines, prefix, last, width, descriptions, stars, f);
      JoinSnoc(before, x, '\n');
      JoinAppend(before, x, '\n');
    }
  }

  /** The shown lines of one more line: one more shown line. */
  lemma ShownAllSnoc(lines: seq<string>, prefix: seq<string>, last: string, width: nat, descriptions: map<string, string>, stars: bool, f: Flavor)
    requires lines == prefix + [last]
    requires forall i :: 0 <= i < |lines| ==> Shown(lines[i], width, descriptions, stars, f).Ok?
    ensures forall i :: 0 <= i < |prefix| ==> Shown(prefix[i], width, descriptions, stars, f).Ok?
    ensures Shown(last, width, descriptions, stars, f).Ok?
    ensures ShownAll(lines, width, descriptions, stars, f) + [[]]
      == ShownAll(prefix, width, descriptions, stars, f) + [Shown(last, width, descriptions, stars, f).value, []]
  {
    assert forall i :: 0 <= i < |prefix| ==> prefix[i] == lines[i];
    assert lines[|prefix|] == last;
  }

  /** Joining one more piece: the join so far, the separator, the piece. */
  lemma JoinAppend(parts: seq<string>, x: string, c: char)
    ensures Join(parts + [[]], [c]) + x == Join(parts + [x], [c])
    decreases |parts|
  {
    if parts != [] {
      assert (parts + [[]])[1..] == parts[1..] + [[]];
      assert (parts + [x])[1..] == parts[1..] + [x];
      JoinAppend(parts[1..], x, c);
    }
  }

  /**
   * One output line per plan line, in order, when no line and no description
   * holds a newline (a Debian description usually does: its extended part
   * then spreads over further output lines).
   */
  lemma LintedLines(lines: seq<string>, width: nat, descriptions: map<string, string>, stars: bool, f: Flavor)
    requires LintedOf(lines, width, descriptions, stars, f).Ok?
    requires forall i :: 0 <= i < |lines| ==> '\n' !in lines[i]
    requires forall k :: k in descriptions ==> '\n' !in descriptions[k]
    ensures forall i :: 0 <= i < |lines| ==> Shown(lines[i], width, descriptions, stars, f).Ok?
    ensures Split(LintedOf(lines, width, descriptions, stars, f).value, '\n')
      == ShownAll(lines, width, descriptions, stars, f) + [[]]
  {
    LintedJoin(lines, width, descriptions, stars, f);
    var shown := ShownAll(lines, width, descriptions, stars, f);
    forall i | 0 <= i < |shown + [[]]|
      ensures '\n' !in (shown + [[]])[i]
    {
      if i < |shown| {
        ShownFree(lines[i], width, descriptions, stars, '\n', f);
      }
    }
    SplitJoin(shown + [[]], '\n');
  }

  /**
   * A shown line holds no `c` (other than a space or `#`) when neither its
   * line nor any description does.
   */
  lemma ShownFree(line: string, width: nat, descriptions: map<string, string>, stars: bool, c: char, f: Flavor)
    requires c != ' ' && c != '#'
    requires c !in line && forall k :: k in descriptions ==> c !in descriptions[k]
    requires Shown(line, width, descriptions, stars, f).Ok?
    ensures c !in Shown(line, width, descriptions, stars, f).value
  {
    if !Copied(line, f) {
      var expr := Strip(line, f);
      StripInside(line, f);
      var padded := LJust(expr, width);
      assert c !in padded by {
        forall n | 0 <= n < |padded| ensures padded[n] != c {
          if n < |expr| {
            assert padded[n] == expr[n];
          }
        }
      }
    }
  }

  /** The whole output holds no `c` (other than a space, `#` or newline) when neither the lines nor the descriptions do. */
  lemma LintedFree(lines: seq<string>, width: nat, descriptions: map<string, string>, stars: bool, c: char, f: Flavor)
    requires c != ' ' && c != '#' && c != '\n'
    requires forall i :: 0 <= i < |lines| ==> c !in lines[i]
    requires forall k :: k in descriptions ==> c !in descriptions[k]
    requires LintedOf(lines, width, descriptions, stars, f).Ok?
    ensures c !in LintedOf(lines, width, descriptions, stars, f).value
  {
    LintedJoin(lines, width, descriptions, stars, f);
    var shown := ShownAll(lines, width, descriptions, stars, f);
    forall i | 0 <= i < |shown + [[]]|
      ensures c !in (shown + [[]])[i]
    {
      if i < |shown| {
        ShownFree(lines[i], width, descriptions, stars, c, f);
      }
    }
    JoinFree(shown + [[]], "\n", c);
  }

  /** The stripped text is part of the text. */
  lemma StripInside(s: string, f: Flavor)
    ensures forall n :: 0 <= n < |Strip(s, f)| ==> Strip(s, f)[n] in s
  {
    var l := TrimLeft(s, Spaces(f));
    TrimLeftKept(s, Spaces(f));
    TrimRightKept(l, Spaces(f));
    forall n | 0 <= n < |Strip(s, f)| ensures Strip(s, f)[n] in s {
      assert Strip(s, f)[n] == l[n] == s[|s| - |l| + n];
    }
  }

  /**
   * A line that is not copied shows its stripped text padded to the width,
   * then ` # ` at the width, then its description.
   */
  lemma ShownLayout(line: string, width: nat, descriptions: map<string, string>, stars: bool, f: Flavor)
    requires !Copied(line, f) && Shown(line, width, descriptions, stars, f).Ok? && |Strip(line, f)| <= width
    ensures var r := Shown(line, width, descriptions, stars, f).value;
      |r| >= width + 3 && r[width..width + 3] == " # "
      && r[width + 3..] == descriptions[DescriptionKey(Strip(line, f), stars)]
  {
  }

  // ---------------------------------------------------------------------
  // plan_lint as a whole

  /** How a linter call fails: a missing key, `max` of nothing, or md5 of a text string. */
  datatype LintError = KeyError(key: string) | ValueError | TypeError

  /**
   * `plan_lint` of the plan file's text, given the descriptions
   * `get_packages_info` returns and a key per comment. The text is stripped;
   * the column is as wide as the longest declared name, plus 3. With no
   * names, `max` of nothing raises ValueError in pylib/cmd_plan_lint.py
   * (`emptyFails`), while the other two linters use a zero-wide column.
   */
  ghost function PlanLintOf(text: string, descriptions: map<string, string>, key: string -> string, stars: bool, emptyFails: bool, f: Flavor)
    : (r: Result<string, LintError>)
  {
    var plan := Strip(text, f);
    var packages := PackagesOf(PlanLines(plan), stars, f);
    if packages == {} && emptyFails then Err(ValueError)
    else Linted(plan, descriptions, key, stars, ColumnWidth(packages), f)
  }

  /** `column_len + 3`: the longest name's length (0 with no names), plus 3. */
  ghost function ColumnWidth(packages: set<string>): nat
  {
    (if packages == {} then 0 else LongestName(packages)) + 3
  }

  /**
   * `plan_lint`: read (here: given) the plan, parse it, size the column,
   * then format. `stars` and `emptyFails` select the linter.
   */
  method PlanLint(text: string, descriptions: map<string, string>, key: string -> string, stars: bool, emptyFails: bool, f: Flavor)
    returns (r: Result<string, LintError>)
    ensures r == PlanLintOf(text, descriptions, key, stars, emptyFails, f)
  {
    var plan := Strip(text, f);
    var longest := Longest(plan, stars, f);
    if longest.None? && emptyFails {
      return Err(ValueError);
    }
    var column_len := if longest.None? then 0 else longest.value;
    PlanLintUnfold(text, descriptions, key, stars, emptyFails, column_len + 3, f);
    r := FormatPlan(plan, descriptions, key, stars, column_len + 3, f);
  }

  /** With a plan that declares a name, or a linter that allows none, the result is the formatting's. */
  lemma PlanLintUnfold(text: string, descriptions: map<string, string>, key: string -> string, stars: bool, emptyFails: bool, width: nat, f: Flavor)
    requires width == ColumnWidth(PackagesOf(PlanLines(Strip(text, f)), stars, f))
    requires !emptyFails || PackagesOf(PlanLines(Strip(text, f)), stars, f) != {}
    ensures PlanLintOf(text, descriptions, key, stars, emptyFails, f) == Linted(Strip(text, f), descriptions, key, stars, width, f)
  {
  }

  /** `parse_plan`, then the longest declared name's length, if any name is declared. */
  method Longest(plan: string, stars: bool, f: Flavor) returns (longest: Option<nat>)
    ensures longest.None? <==> PackagesOf(PlanLines(plan), stars, f) == {}
    ensures (if longest.None? then 0 else longest.value) + 3 == ColumnWidth(PackagesOf(PlanLines(plan), stars, f))
  {
    var packages := ParsePlan(plan, stars, f);
    longest := MaxLen(packages);
  }

  /**
   * What `plan_lint` returns once the column width is known: the swapped
   * plan's lines shown one by one, then the placeholders restored. A missing
   * description or an unknown placeholder raises KeyError.
   */
  function Linted(plan: string, descriptions: map<string, string>, key: string -> string, stars: bool, width: nat, f: Flavor)
    : (r: Result<string, LintError>)
    ensures r.Err? ==> r.error.KeyError?
  {
    var swapped := Swap(plan, key);
    match LintedOf(Split(swapped.text, '\n'), width, descriptions, stars, f)
    case Err(k) => Err(KeyError(k))
    case Ok(linted) =>
      match Restore(linted, swapped.comments, f)
      case Err(k) => Err(KeyError(k))
      case Ok(t) => Ok(t)
  }

  /** A plan without a complete block comment never consults the key. */
  lemma KeyUnused(plan: string, descriptions: map<string, string>, key: string -> string, other: string -> string, stars: bool, width: nat, f: Flavor)
    requires BlockComment(plan).None?
    ensures Linted(plan, descriptions, key, stars, width, f) == Linted(plan, descriptions, other, stars, width, f)
  {
    NothingLeft(plan, key);
    NothingLeft(plan, other);
  }

  /** The part of `plan_lint` after the column width: swap, the formatting loop, restore. */
  method FormatPlan(plan: string, descriptions: map<string, string>, key: string -> string, stars: bool, width: nat, f: Flavor)
    returns (r: Result<string, LintError>)
    ensures r == Linted(plan, descriptions, key, stars, width, f)
  {
    var text, comments := SwapComments(plan, key, f);
    var linted := LintLines(Split(text, '\n'), width, descriptions, stars, f);
    if linted.Err? {
      return Err(KeyError(linted.error));
    }
    var restored := Restore(linted.value, comments, f);
    if restored.Err? {
      return Err(KeyError(restored.error));
    }
    return Ok(restored.value);
  }

  /** Restoring the swap's own comments gives the plan back. */
  lemma SwapRestore(s: string, key: string -> string, f: Flavor)
    requires '$' !in s && Separated(s, f) && GoodKeys(key, f)
    ensures Restore(Swap(s, key).text, Swap(s, key).comments, f) == Ok(s)
  {
    SwapRestoreWith(s, key, Swap(s, key).comments, f);
  }

  /** A newline after the text is kept by Restore: it ends a run, and holds no `$`. */
  lemma {:induction false} RestoreNewline(t: string, m: map<string, string>, f: Flavor)
    requires Restore(t, m, f).Ok?
    ensures Restore(t + "\n", m, f) == Ok(Restore(t, m, f).value + "\n")
    decreases |t|, 1
  {
    match Find(t, '$') {
      case None =>
        NewlineNoDollar(t);
      case Some(i) =>
        NewlineDollar(t, i);
        RestoreAt(t + "\n", i, t[..i], t[i + 1..] + "\n", m, f);
        RestoreAt(t, i, t[..i], t[i + 1..], m, f);
        PlaceholderNewline(t[..i], t[i + 1..], m, f);
    }
  }

  /** The same for the text after a `$`. */
  lemma {:induction false} PlaceholderNewline(before: string, after: string, m: map<string, string>, f: Flavor)
    requires Placeholder(before, after, m, f).Ok?
    ensures Placeholder(before, after + "\n", m, f) == Ok(Placeholder(before, after, m, f).value + "\n")
    decreases |after|, 2
  {
    WordNewline(after, f);
    var run := Word(after, f);
    if run == [] {
      RestoreNewline(after, m, f);
      var u := Restore(after, m, f).value;
      assert before + "$" + (u + "\n") == (before + "$" + u) + "\n";
    } else {
      DropNewline(after, |run|);
      RestoreNewline(after[|run|..], m, f);
      var u := Restore(after[|run|..], m, f).value;
      assert before + m[run] + (u + "\n") == (before + m[run] + u) + "\n";
    }
  }

  lemma DropNewline(s: string, n: nat)
    requires n <= |s|
    ensures (s + "\n")[n..] == s[n..] + "\n"
  {
  }

  /** Without `$` in the text, none is found after a newline either. */
  lemma NewlineNoDollar(t: string)
    requires '$' !in t
    ensures Find(t + "\n", '$').None?
  {
  }

  /** The first `$` stays the first with a newline after the text. */
  lemma NewlineDollar(t: string, i: nat)
    requires Find(t, '$') == Some(i)
    ensures i < |t| && Find(t + "\n", '$') == Some(i)
    ensures (t + "\n")[..i] == t[..i] && (t + "\n")[i + 1..] == t[i + 1..] + "\n"
  {
    NewlinePieces(t, i);
    FindFirst(t + "\n", '$', i);
  }

  lemma NewlinePieces(t: string, i: nat)
    requires i < |t|
    ensures (t + "\n")[i] == t[i] && (t + "\n")[..i] == t[..i] && (t + "\n")[i + 1..] == t[i + 1..] + "\n"
  {
  }

  /** A newline ends a run of non-whitespace. */
  lemma {:induction false} WordNewline(s: string, f: Flavor)
    ensures Word(s + "\n", f) == Word(s, f)
    decreases |s|
  {
    if s != [] && !IsSpace(s[0], f) {
      assert (s + "\n")[1..] == s[1..] + "\n";
      WordNewline(s[1..], f);
    }
  }

  /**
   * A plan whose every line, once its comments are swapped, is copied comes
   * back unchanged with a newline after it, when it has no `$` of its own
   * and each comment ends the text or is followed by whitespace.
   */
  lemma CopiedPlanUnchanged(plan: string, descriptions: map<string, string>, key: string -> string, stars: bool, width: nat, f: Flavor)
    requires '$' !in plan && Separated(plan, f) && GoodKeys(key, f)
    requires forall i :: 0 <= i < |Split(Swap(plan, key).text, '\n')| ==> Copied(Split(Swap(plan, key).text, '\n')[i], f)
    ensures Linted(plan, descriptions, key, stars, width, f) == Ok(plan + "\n")
  {
    var swapped := Swap(plan, key);
    var lines := Split(swapped.text, '\n');
    AllCopied(lines, width, descriptions, stars, f);
    JoinSplit(swapped.text, '\n');
    SwapRestore(plan, key, f);
    RestoreNewline(swapped.text, swapped.comments, f);
  }

  /** Lines that are all copied come out joined by newlines, with a newline after the last. */
  lemma AllCopied(lines: seq<string>, width: nat, descriptions: map<string, string>, stars: bool, f: Flavor)
    requires |lines| >= 1 && forall i :: 0 <= i < |lines| ==> Copied(lines[i], f)
    ensures LintedOf(lines, width, descriptions, stars, f) == Ok(Join(lines, "\n") + "\n")
  {
    LintedFails(lines, width, descriptions, stars, f);
    LintedJoin(lines, width, descriptions, stars, f);
    var shown := ShownAll(lines, width, descriptions, stars, f);
    assert shown == lines;
    var before, last := lines[..|lines| - 1], lines[|lines| - 1];
    assert lines + [[]] == before + [last, []] && lines == before + [last];
    JoinSnoc(before, last, '\n');
  }

  /**
   * A plan without block comments and without `$`, and descriptions without
   * `$`: nothing is swapped and nothing restored, so the output is the
   * formatting loop's text.
   */
  lemma PlainPlan(plan: string, descriptions: map<string, string>, key: string -> string, stars: bool, width: nat, f: Flavor)
    requires BlockComment(plan).None? && '$' !in plan
    requires forall k :: k in descriptions ==> '$' !in descriptions[k]
    ensures Linted(plan, descriptions, key, stars, width, f)
      == match LintedOf(Split(plan, '\n'), width, descriptions, stars, f)
         case Err(k) => Err(KeyError(k))
         case Ok(t) => Ok(t)
  {
    NothingLeft(plan, key);
    var lines := Split(plan, '\n');
    var linted := LintedOf(lines, width, descriptions, stars, f);
    if linted.Ok? {
      forall i | 0 <= i < |lines| ensures '$' !in lines[i] {
        SplitFree(plan, '\n', '$', i);
      }
      LintedFree(lines, width, descriptions, stars, '$', f);
    }
  }

  // ---------------------------------------------------------------------
  // What the linters promise

  /** A blank plan declares nothing: pylib/cmd_plan_lint.py then fails with ValueError. */
  lemma BlankPlanFails(text: string, descriptions: map<string, string>, key: string -> string, stars: bool, f: Flavor)
    requires AllSpace(text, f)
    ensures PlanLintOf(text, descriptions, key, stars, true, f) == Err(ValueError)
  {
    StripEnds(text, f);
    assert StripBlockComments("") == "" && CutLineComments("") == "";
    assert Split("", '\n') == [""];
    assert Entry("", stars, f) == "";
    assert EntriesOf([""], stars, f) == [""];
    assert PackagesIn([""]) == PackagesIn([]);
  }

  /**
   * A plan made only of lines that are copied (comments, blank lines, lines
   * already annotated) comes back as it was, stripped and with a newline.
   */
  lemma CopiedPlanKept(text: string, descriptions: map<string, string>, key: string -> string, stars: bool, emptyFails: bool, f: Flavor)
    requires '$' !in Strip(text, f) && Separated(Strip(text, f), f) && GoodKeys(key, f)
    requires forall i :: 0 <= i < |Split(Swap(Strip(text, f), key).text, '\n')| ==> Copied(Split(Swap(Strip(text, f), key).text, '\n')[i], f)
    requires !emptyFails || PackagesOf(PlanLines(Strip(text, f)), stars, f) != {}
    ensures PlanLintOf(text, descriptions, key, stars, emptyFails, f) == Ok(Strip(text, f) + "\n")
  {
    var plan := Strip(text, f);
    CopiedPlanUnchanged(plan, descriptions, key, stars, ColumnWidth(PackagesOf(PlanLines(plan), stars, f)), f);
  }

  /**
   * For a plan without block comments and without `$` (and descriptions
   * without `$` or newlines): linting fails exactly when a line that is not
   * copied has no description, and otherwise gives one output line per plan
   * line, in order, each the line as shown.
   */
  lemma PlainPlanLines(text: string, descriptions: map<string, string>, key: string -> string, stars: bool, emptyFails: bool, f: Flavor)
    requires BlockComment(Strip(text, f)).None? && '$' !in Strip(text, f)
    requires forall k :: k in descriptions ==> '$' !in descriptions[k] && '\n' !in descriptions[k]
    requires !emptyFails || PackagesOf(PlanLines(Strip(text, f)), stars, f) != {}
    ensures var lines := Split(Strip(text, f), '\n');
      var width := ColumnWidth(PackagesOf(PlanLines(Strip(text, f)), stars, f));
      && (PlanLintOf(text, descriptions, key, stars, emptyFails, f).Err?
          <==> exists i :: 0 <= i < |lines| && Shown(lines[i], width, descriptions, stars, f).Err?)
      && (PlanLintOf(text, descriptions, key, stars, emptyFails, f).Ok? ==>
          && (forall i :: 0 <= i < |lines| ==> Shown(lines[i], width, descriptions, stars, f).Ok?)
          && Split(PlanLintOf(text, descriptions, key, stars, emptyFails, f).value, '\n')
             == ShownAll(lines, width, descriptions, stars, f) + [[]])
  {
    var plan := Strip(text, f);
    var lines := Split(plan, '\n');
    var width := ColumnWidth(PackagesOf(PlanLines(plan), stars, f));
    PlainPlan(plan, descriptions, key, stars, width, f);
    LintedFails(lines, width, descriptions, stars, f);
    if LintedOf(lines, width, descriptions, stars, f).Ok? {
      LintedLines(lines, width, descriptions, stars, f);
    }
  }
}
