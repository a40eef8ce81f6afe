/**
 * POSIX path strings as `os.path` handles them (`join`, `dirname`,
 * `basename`), and a file tree reduced to what the modelled code asks of
 * it: which paths exist, and whether each is a file or a directory.
 */
module Paths {
  import opened Wrappers
  import opened Text

  predicate IsSlash(c: char) {
    c == '/'
  }

  /** os.path.join(a, b): b itself when it is absolute, else b after a and one separator. */
  function PathJoin(a: string, b: string): (r: string)
  {
    if b != [] && b[0] == '/' then b
    else if a == [] || a[|a| - 1] == '/' then a + b
    else a + "/" + b
  }

  /** Joining a relative path keeps the directory as a prefix, with exactly one separator after it. */
  lemma JoinRelative(a: string, b: string)
    requires b == [] || b[0] != '/'
    ensures IsPrefix(a, PathJoin(a, b))
    ensures a != [] && a[|a| - 1] != '/' ==> PathJoin(a, b) == a + "/" + b
    ensures a == [] || a[|a| - 1] == '/' ==> PathJoin(a, b) == a + b
  {
  }

  /** Index of the last c in s (s.rfind(c)), if any. */
  function FindLast(s: string, c: char): (r: Option<nat>)
    ensures r.None? <==> c !in s
    ensures r.Some? ==> r.value < |s| && s[r.value] == c && c !in s[r.value + 1..]
    decreases |s|
  {
    if s == [] then None
    else if s[|s| - 1] == c then Some(|s| - 1)
    else
      var r := FindLast(s[..|s| - 1], c);
      if r.Some? then
        assert s[r.value + 1..] == s[..|s| - 1][r.value + 1..] + [s[|s| - 1]];
        r
      else
        assert s == s[..|s| - 1] + [s[|s| - 1]];
        None
  }

  /** os.path.basename(p): what follows the last separator. */
  function Basename(p: string): (r: string)
    ensures '/' !in r && IsSuffix(r, p)
  {
    match FindLast(p, '/')
    case None => p
    case Some(k) => p[k + 1..]
  }

  /**
   * os.path.dirname(p): everything up to the last separator, without the
   * trailing separators unless it is made of separators only.
   */
  function Dirname(p: string): (r: string)
    ensures IsPrefix(r, p)
  {
    var head := match FindLast(p, '/') case None => "" case Some(k) => p[..k + 1];
    var trimmed := TrimRight(head, IsSlash);
    if trimmed != [] then
      TrimRightKept(head, IsSlash);
      trimmed
    else head
  }

  /**
   * A path with a directory part that does not end in a separator, and a
   * last component without one, splits back into the two, and joining them
   * gives the path again.
   */
  lemma DirnameBasename(d: string, b: string)
    requires d != [] && d[|d| - 1] != '/' && '/' !in b
    ensures Dirname(d + "/" + b) == d
    ensures Basename(d + "/" + b) == b
    ensures PathJoin(Dirname(d + "/" + b), Basename(d + "/" + b)) == d + "/" + b
  {
    var p := d + "/" + b;
    LastSlash(d, b);
    var head := p[..|d| + 1];
    assert head == d + "/";
    assert head[|d| - 1] != '/';
    TrimOneSlash(d);
    assert TrimRight(head, IsSlash) == d;
  }

  lemma TrimOneSlash(d: string)
    requires d != [] && d[|d| - 1] != '/'
    ensures TrimRight(d + "/", IsSlash) == d
  {
    assert (d + "/")[..|d|] == d;
  }

  /** The last separator of d, a separator and a component without one, is the one in the middle. */
  lemma LastSlash(d: string, b: string)
    requires '/' !in b
    ensures FindLast(d + "/" + b, '/') == Some(|d|)
    ensures (d + "/" + b)[|d| + 1..] == b
  {
    var p := d + "/" + b;
    assert p[|d| + 1..] == b;
    assert p[|d|] == '/';
  }

  /** A path with no separator has an empty directory part and is its own last component. */
  lemma NoSlash(p: string)
    requires '/' !in p
    ensures Dirname(p) == "" && Basename(p) == p
  {
  }

  /** What a path names in the file tree. */
  datatype Node = File | Dir

  /** The file tree: every existing path and what it names. */
  type FileSystem = map<string, Node>

  /** q lies strictly inside the directory p. */
  predicate Inside(q: string, p: string) {
    IsPrefix(p + "/", q)
  }

  /** The tree without p and everything inside it (`shutil.rmtree`). */
  function WithoutTree(fs: FileSystem, p: string): (r: FileSystem)
    ensures forall q :: q in r <==> q in fs && q != p && !Inside(q, p)
    ensures forall q :: q in r ==> r[q] == fs[q]
  {
    map q | q in fs && q != p && !Inside(q, p) :: fs[q]
  }
}
