/**
 * The few operations on Python strings that the modelled code relies on:
 * strip/lstrip/rstrip, startswith, substring tests, split and join on one
 * separator character, whitespace splitting with a limit, and ljust.
 * What counts as whitespace depends on the kind of string: see Flavor.
 */
module Text {
  import opened Wrappers

  /**
   * The kind of string a module works on. A Python 2 byte string (pylib,
   * share/ and contrib/cdroot2usb.py) knows six whitespace characters. A
   * Python 3 str (fablib) knows the Unicode ones of `str.isspace`, which
   * `strip()`, `split()` and the `\s` of a str pattern all use.
   */
  datatype Flavor = Bytes | Unicode

  /** Space, tab, newline, vertical tab, form feed and carriage return. */
  predicate IsByteSpace(c: char) {
    c == ' ' || '\t' <= c <= '\r'
  }

  /**
   * The whitespace of `str.isspace`: the six of a byte string, the file,
   * group, record and unit separators U+1C-U+1F, next line U+85, no-break
   * space U+A0, and the Unicode spaces and line and paragraph separators.
   */
  predicate IsUnicodeSpace(c: char) {
    IsByteSpace(c) || '\U{1C}' <= c <= '\U{1F}' || c == '\U{85}' || c == '\U{A0}' || c == '\U{1680}'
    || '\U{2000}' <= c <= '\U{200A}' || c == '\U{2028}' || c == '\U{2029}'
    || c == '\U{202F}' || c == '\U{205F}' || c == '\U{3000}'
  }

  /** The whitespace test of a flavour, as a value to hand to TrimLeft, TrimRight and RunLength. */
  function Spaces(f: Flavor): char -> bool {
    match f
    case Bytes => IsByteSpace
    case Unicode => IsUnicodeSpace
  }

  predicate IsSpace(c: char, f: Flavor) {
    Spaces(f)(c)
  }

  predicate IsDigit(c: char) {
    '0' <= c <= '9'
  }

  /** s.startswith(p) */
  predicate IsPrefix(p: string, s: string) {
    |p| <= |s| && s[..|p|] == p
  }

  /** s.endswith(p) */
  predicate IsSuffix(p: string, s: string) {
    |p| <= |s| && s[|s| - |p|..] == p
  }

  /** sub in s */
  predicate Contains(s: string, sub: string)
    decreases |s|
  {
    IsPrefix(sub, s) || (s != [] && Contains(s[1..], sub))
  }

  /** n copies of c */
  function Repeat(c: char, n: nat): (r: string)
    ensures |r| == n && forall i :: 0 <= i < n ==> r[i] == c
  {
    seq(n, _ => c)
  }

  /** s.lstrip(chars), where drop tells which characters are in chars. */
  function TrimLeft(s: string, drop: char -> bool): (r: string)
    ensures |r| <= |s|
    decreases |s|
  {
    if s != [] && drop(s[0]) then TrimLeft(s[1..], drop) else s
  }

  /** lstrip keeps a suffix, which starts with a character it does not drop. */
  lemma {:induction false} TrimLeftKept(s: string, drop: char -> bool)
    ensures var r := TrimLeft(s, drop); r == s[|s| - |r|..] && (r == [] || !drop(r[0]))
    decreases |s|
  {
    if s != [] && drop(s[0]) {
      TrimLeftKept(s[1..], drop);
    }
  }

  /** lstrip removes only characters it is told to drop. */
  lemma {:induction false} TrimLeftDropped(s: string, drop: char -> bool)
    ensures forall i :: 0 <= i < |s| - |TrimLeft(s, drop)| ==> drop(s[i])
    decreases |s|
  {
    if s != [] && drop(s[0]) {
      TrimLeftDropped(s[1..], drop);
      forall i | 1 <= i < |s| - |TrimLeft(s, drop)|
        ensures drop(s[i])
      {
        assert s[i] == s[1..][i - 1];
      }
    }
  }

  /** s.rstrip(chars), where drop tells which characters are in chars. */
  function TrimRight(s: string, drop: char -> bool): (r: string)
    ensures |r| <= |s|
    decreases |s|
  {
    if s != [] && drop(s[|s| - 1]) then TrimRight(s[..|s| - 1], drop) else s
  }

  /** rstrip keeps a prefix, which ends with a character it does not drop. */
  lemma {:induction false} TrimRightKept(s: string, drop: char -> bool)
    ensures var r := TrimRight(s, drop); r == s[..|r|] && (r == [] || !drop(r[|r| - 1]))
    decreases |s|
  {
    if s != [] && drop(s[|s| - 1]) {
      TrimRightKept(s[..|s| - 1], drop);
    }
  }

  /** rstrip removes only characters it is told to drop. */
  lemma {:induction false} TrimRightDropped(s: string, drop: char -> bool)
    ensures forall i :: |TrimRight(s, drop)| <= i < |s| ==> drop(s[i])
    decreases |s|
  {
    if s != [] && drop(s[|s| - 1]) {
      TrimRightDropped(s[..|s| - 1], drop);
      forall i | |TrimRight(s, drop)| <= i < |s| - 1
        ensures drop(s[i])
      {
        assert s[i] == s[..|s| - 1][i];
      }
    }
  }

  /** Length of the leading run of s whose characters all satisfy p. */
  function RunLength(s: string, p: char -> bool): (n: nat)
    ensures n <= |s|
    decreases |s|
  {
    if s != [] && p(s[0]) then 1 + RunLength(s[1..], p) else 0
  }

  /** The leading run is made of characters satisfying p and ends at one that does not. */
  lemma {:induction false} RunLengthProps(s: string, p: char -> bool)
    ensures forall i :: 0 <= i < RunLength(s, p) ==> p(s[i])
    ensures RunLength(s, p) < |s| ==> !p(s[RunLength(s, p)])
    decreases |s|
  {
    if s != [] && p(s[0]) {
      RunLengthProps(s[1..], p);
      forall i | 1 <= i < RunLength(s, p)
        ensures p(s[i])
      {
        assert s[i] == s[1..][i - 1];
      }
      if RunLength(s, p) < |s| {
        assert s[RunLength(s, p)] == s[1..][RunLength(s, p) - 1];
      }
    }
  }

  /** A run that ends where p first fails is the leading run. */
  lemma {:induction false} RunLengthExact(s: string, p: char -> bool, n: nat)
    requires n <= |s|
    requires forall i :: 0 <= i < n ==> p(s[i])
    requires n < |s| ==> !p(s[n])
    ensures RunLength(s, p) == n
    decreases n
  {
    if n > 0 {
      assert p(s[0]);
      forall i | 0 <= i < n - 1
        ensures p(s[1..][i])
      {
        assert s[1..][i] == s[i + 1];
      }
      if n < |s| {
        assert s[1..][n - 1] == s[n];
      }
      RunLengthExact(s[1..], p, n - 1);
    }
  }

  /** s.count(c) for one character c. */
  function Count(s: string, c: char): (n: nat)
    ensures n <= |s|
    decreases |s|
  {
    if s == [] then 0 else (if s[0] == c then 1 else 0) + Count(s[1..], c)
  }

  lemma {:induction false} CountAbsent(s: string, c: char)
    requires c !in s
    ensures Count(s, c) == 0
    decreases |s|
  {
    if s != [] {
      assert c !in s[1..] by {
        forall i | 0 <= i < |s| - 1
          ensures s[1..][i] != c
        {
          assert s[1..][i] == s[i + 1];
        }
      }
      CountAbsent(s[1..], c);
    }
  }

  lemma {:induction false} CountAppend(a: string, b: string, c: char)
    ensures Count(a + b, c) == Count(a, c) + Count(b, c)
    decreases |a|
  {
    if a != [] {
      assert (a + b)[0] == a[0];
      assert (a + b)[1..] == a[1..] + b;
      CountAppend(a[1..], b, c);
    } else {
      assert a + b == b;
    }
  }

  /** The leading whitespace run of s is all whitespace, and ends at a character that is not. */
  lemma LeadingSpace(s: string, f: Flavor)
    ensures AllSpace(s[..RunLength(s, Spaces(f))], f)
    ensures RunLength(s, Spaces(f)) < |s| ==> !IsSpace(s[RunLength(s, Spaces(f))], f)
  {
    RunLengthProps(s, Spaces(f));
  }

  /** A character that is not whitespace does not occur in a run of whitespace. */
  lemma NotInSpace(s: string, f: Flavor, c: char)
    requires AllSpace(s, f) && !IsSpace(c, f)
    ensures c !in s
  {
  }

  /** s.strip() */
  function Strip(s: string, f: Flavor): (r: string)
  {
    TrimRight(TrimLeft(s, Spaces(f)), Spaces(f))
  }

  predicate AllSpace(s: string, f: Flavor) {
    forall i :: 0 <= i < |s| ==> IsSpace(s[i], f)
  }

  /** strip() leaves no whitespace at either end, and leaves nothing exactly when all is whitespace. */
  lemma StripEnds(s: string, f: Flavor)
    ensures Strip(s, f) == [] || (!IsSpace(Strip(s, f)[0], f) && !IsSpace(Strip(s, f)[|Strip(s, f)| - 1], f))
    ensures Strip(s, f) == [] <==> AllSpace(s, f)
  {
    var l := TrimLeft(s, Spaces(f));
    var r := TrimRight(l, Spaces(f));
    var a := |s| - |l|;
    TrimLeftDropped(s, Spaces(f));
    TrimRightDropped(l, Spaces(f));
    TrimLeftKept(s, Spaces(f));
    TrimRightKept(l, Spaces(f));
    if r != [] {
      assert r[0] == l[0];
      assert s[a] == l[0];
      assert !AllSpace(s, f);
    } else {
      assert l == [];
    }
  }

  /** A string without whitespace at either end is its own strip(). */
  lemma StripTrimmed(s: string, f: Flavor)
    requires s == [] || (!IsSpace(s[0], f) && !IsSpace(s[|s| - 1], f))
    ensures Strip(s, f) == s
  {
  }

  lemma {:induction false} TrimLeftIdem(s: string, drop: char -> bool)
    requires s == [] || !drop(s[0])
    ensures TrimLeft(s, drop) == s
  {
  }

  /** strip() is idempotent. */
  lemma StripIdem(s: string, f: Flavor)
    ensures Strip(Strip(s, f), f) == Strip(s, f)
  {
    StripEnds(s, f);
    StripTrimmed(Strip(s, f), f);
  }

  /**
   * The flavours differ: a str's strip() drops a leading separator such as
   * U+1C or a no-break space, which a byte string keeps.
   */
  lemma UnicodeOnlySpace(c: char, s: string)
    requires IsUnicodeSpace(c) && !IsByteSpace(c)
    requires s == [] || (!IsUnicodeSpace(s[0]) && !IsUnicodeSpace(s[|s| - 1]))
    ensures Strip([c] + s, Unicode) == s
    ensures Strip([c] + s, Bytes) == [c] + s
  {
    var t := [c] + s;
    assert t[1..] == s;
    StripTrimmed(s, Unicode);
    assert TrimLeft(t, Spaces(Unicode)) == s;
    StripTrimmed(t, Bytes);
  }

  /** U+1C, the file separator, is whitespace to a str only. */
  lemma FileSeparatorFlavors(s: string)
    requires s == [] || (!IsUnicodeSpace(s[0]) && !IsUnicodeSpace(s[|s| - 1]))
    ensures Strip(['\U{1C}'] + s, Unicode) == s
    ensures Strip(['\U{1C}'] + s, Bytes) == ['\U{1C}'] + s
  {
    UnicodeOnlySpace('\U{1C}', s);
  }

  /** Index of the first c in s, if any (s.find(c)). */
  function Find(s: string, c: char): (r: Option<nat>)
    ensures r.None? <==> c !in s
    ensures r.Some? ==> r.value < |s| && s[r.value] == c && c !in s[..r.value]
    decreases |s|
  {
    if s == [] then None
    else if s[0] == c then Some(0)
    else match Find(s[1..], c)
      case None => None
      case Some(i) =>
        assert s[..i + 1] == [s[0]] + s[1..][..i];
        Some(i + 1)
  }

  /** The text before the first c (all of s when there is none): s.split(c)[0]. */
  function Before(s: string, c: char): (r: string)
    ensures IsPrefix(r, s) && c !in r
    ensures |r| < |s| ==> s[|r|] == c
    ensures c !in s ==> r == s
  {
    match Find(s, c)
    case None => s
    case Some(i) => s[..i]
  }

  /** The text before the first c, when the text is a, c and b. */
  lemma BeforeFirst(a: string, c: char, b: string)
    requires c !in a
    ensures Before(a + [c] + b, c) == a
    ensures (a + [c] + b)[|a| + 1..] == b
  {
    var s := a + [c] + b;
    assert s[|a|] == c && s[..|a|] == a;
    FindFirst(s, c, |a|);
  }

  /** s.split(c) for a one-character separator c. */
  function Split(s: string, c: char): (parts: seq<string>)
    ensures |parts| >= 1
    ensures forall i :: 0 <= i < |parts| ==> c !in parts[i]
    ensures parts[0] == Before(s, c)
    decreases |s|
  {
    match Find(s, c)
    case None => [s]
    case Some(i) => [s[..i]] + Split(s[i + 1..], c)
  }

  /** The pieces of a split hold no character the text does not. */
  lemma {:induction false} SplitFree(s: string, c: char, d: char, i: nat)
    requires d !in s && i < |Split(s, c)|
    ensures d !in Split(s, c)[i]
    decreases |s|
  {
    match Find(s, c)
    case None =>
    case Some(k) =>
      var head, tail := s[..k], s[k + 1..];
      SplitAt(s, c, k, head, tail);
      PiecesFree(s, d, k, k + 1);
      if i > 0 {
        SplitFree(tail, c, d, i - 1);
      }
  }

  /** One step of Split at the first separator. */
  lemma SplitAt(s: string, c: char, k: nat, head: string, tail: string)
    requires Find(s, c) == Some(k) && head == s[..k] && tail == s[k + 1..]
    ensures Split(s, c) == [head] + Split(tail, c)
  {
  }

  /** The head and the tail of a text hold no character the text does not. */
  lemma PiecesFree(s: string, d: char, i: nat, j: nat)
    requires d !in s && i <= j <= |s|
    ensures d !in s[..i] && d !in s[j..]
  {
    forall n | 0 <= n < i ensures s[..i][n] != d {
      assert s[..i][n] == s[n];
    }
    forall n | 0 <= n < |s| - j ensures s[j..][n] != d {
      assert s[j..][n] == s[j + n];
    }
  }

  /** sep.join(parts) */
  function Join(parts: seq<string>, sep: string): (r: string)
    decreases |parts|
  {
    if |parts| == 0 then ""
    else if |parts| == 1 then parts[0]
    else parts[0] + sep + Join(parts[1..], sep)
  }

  lemma JoinCons(first: string, rest: seq<string>, sep: string)
    requires rest != []
    ensures Join([first] + rest, sep) == first + sep + Join(rest, sep)
  {
    assert ([first] + rest)[1..] == rest;
  }

  /** Joining the pieces of a split with the separator gives the text back. */
  lemma {:induction false} JoinSplit(s: string, c: char)
    ensures Join(Split(s, c), [c]) == s
    decreases |s|
  {
    match Find(s, c)
    case None =>
    case Some(i) =>
      var rest := Split(s[i + 1..], c);
      JoinSplit(s[i + 1..], c);
      assert Split(s, c) == [s[..i]] + rest;
      JoinCons(s[..i], rest, [c]);
      assert s == s[..i] + [c] + s[i + 1..];
  }

  /** Joining pieces free of a character with a separator free of it yields text free of it. */
  lemma {:induction false} JoinFree(parts: seq<string>, sep: string, c: char)
    requires c !in sep && forall j :: 0 <= j < |parts| ==> c !in parts[j]
    ensures c !in Join(parts, sep)
    decreases |parts|
  {
    if |parts| > 1 {
      JoinFree(parts[1..], sep, c);
    }
  }

  /** Find returns the first occurrence, so any first occurrence is what it returns. */
  lemma FindFirst(s: string, c: char, k: nat)
    requires k < |s| && s[k] == c && c !in s[..k]
    ensures Find(s, c) == Some(k)
  {
  }

  /** Splitting a join of separator-free pieces gives the pieces back. */
  lemma {:induction false} SplitJoin(parts: seq<string>, c: char)
    requires |parts| >= 1
    requires forall i :: 0 <= i < |parts| ==> c !in parts[i]
    ensures Split(Join(parts, [c]), c) == parts
    decreases |parts|
  {
    if |parts| > 1 {
      var s := Join(parts, [c]);
      var tail := Join(parts[1..], [c]);
      assert s == parts[0] + [c] + tail;
      assert s[..|parts[0]|] == parts[0];
      FindFirst(s, c, |parts[0]|);
      assert s[|parts[0]| + 1..] == tail;
      SplitJoin(parts[1..], c);
      assert Split(s, c) == [parts[0]] + Split(tail, c);
    }
  }

  /** s.ljust(width): s padded with spaces on the right to at least width. */
  function LJust(s: string, width: int): (r: string)
    ensures IsPrefix(s, r)
    ensures |r| == if |s| >= width then |s| else width
    ensures forall i :: |s| <= i < |r| ==> r[i] == ' '
  {
    if |s| >= width then s else s + Repeat(' ', width - |s|)
  }

  /** The leading run of non-whitespace characters of s. */
  function Word(s: string, f: Flavor): (w: string)
    ensures IsPrefix(w, s)
    ensures forall i :: 0 <= i < |w| ==> !IsSpace(w[i], f)
    ensures |w| < |s| ==> IsSpace(s[|w|], f)
    decreases |s|
  {
    if s == [] || IsSpace(s[0], f) then [] else [s[0]] + Word(s[1..], f)
  }

  /**
   * s.split(None, maxsplit): whitespace-separated words, at most maxsplit
   * splits; the remainder after the last split keeps its trailing whitespace.
   */
  function SplitWs(s: string, maxsplit: nat, f: Flavor): (r: seq<string>)
    decreases |s|
  {
    var t := TrimLeft(s, Spaces(f));
    if t == [] then []
    else if maxsplit == 0 then [t]
    else
      var w := Word(t, f);
      [w] + SplitWs(t[|w|..], maxsplit - 1, f)
  }

  /** A non-empty run of non-whitespace characters. */
  predicate IsWord(w: string, f: Flavor) {
    w != [] && forall j :: 0 <= j < |w| ==> !IsSpace(w[j], f)
  }

  /** Words joined by single spaces split back into the same words. */
  lemma {:induction false} SplitWsJoin(words: seq<string>, maxsplit: nat, f: Flavor)
    requires |words| <= maxsplit + 1
    requires forall i :: 0 <= i < |words| ==> IsWord(words[i], f)
    ensures SplitWs(Join(words, " "), maxsplit, f) == words
    decreases |words|
  {
    if words != [] {
      var s := Join(words, " ");
      var w0 := words[0];
      if |words| == 1 {
        SplitWsLast(w0, maxsplit, f);
      } else {
        var rest := Join(words[1..], " ");
        assert words == [w0] + words[1..];
        JoinCons(w0, words[1..], " ");
        assert s == w0 + (" " + rest);
        assert IsWord(words[1], f);
        SplitWsJoin(words[1..], maxsplit - 1, f);
        SplitWsStep(w0, rest, maxsplit, f);
      }
    }
  }

  lemma SplitWsLast(w: string, maxsplit: nat, f: Flavor)
    requires IsWord(w, f)
    ensures SplitWs(w, maxsplit, f) == [w]
  {
    TrimLeftIdem(w, Spaces(f));
    if maxsplit > 0 {
      WordOf(w, "", f);
      assert w + "" == w;
      assert w[|w|..] == [];
    }
  }

  lemma SplitWsStep(w: string, rest: string, maxsplit: nat, f: Flavor)
    requires IsWord(w, f) && rest != [] && !IsSpace(rest[0], f) && maxsplit > 0
    ensures SplitWs(w + (" " + rest), maxsplit, f) == [w] + SplitWs(rest, maxsplit - 1, f)
  {
    var s := w + (" " + rest);
    TrimLeftIdem(s, Spaces(f));
    WordOf(w, " " + rest, f);
    assert s[|w|..] == " " + rest;
    assert SplitWs(s, maxsplit, f) == [w] + SplitWs(" " + rest, maxsplit - 1, f);
    SplitWsSkip(rest, maxsplit - 1, f);
  }

  lemma SplitWsSkip(rest: string, maxsplit: nat, f: Flavor)
    requires rest != [] && !IsSpace(rest[0], f)
    ensures SplitWs(" " + rest, maxsplit, f) == SplitWs(rest, maxsplit, f)
  {
    TrimLeftIdem(rest, Spaces(f));
    assert (" " + rest)[1..] == rest;
    assert TrimLeft(" " + rest, Spaces(f)) == rest;
  }

  lemma {:induction false} WordOf(w: string, tail: string, f: Flavor)
    requires forall j :: 0 <= j < |w| ==> !IsSpace(w[j], f)
    requires tail == [] || IsSpace(tail[0], f)
    ensures Word(w + tail, f) == w
    decreases |w|
  {
    if w != [] {
      assert (w + tail)[1..] == w[1..] + tail;
      WordOf(w[1..], tail, f);
    }
  }
  /** The digit character for d < 10. */
  function DigitChar(d: nat): (c: char)
    requires d < 10
    ensures IsDigit(c) && c as int - '0' as int == d
  {
    ('0' as int + d) as char
  }

  /** str(n): the decimal digits of n, without leading zeros. */
  function Decimal(n: nat): (s: string)
    ensures s != [] && forall i :: 0 <= i < |s| ==> IsDigit(s[i])
    decreases n
  {
    if n < 10 then [DigitChar(n)] else Decimal(n / 10) + [DigitChar(n % 10)]
  }

  /** int(s) for a string of decimal digits. */
  function DecimalValue(s: string): (n: nat)
    requires forall i :: 0 <= i < |s| ==> IsDigit(s[i])
    decreases |s|
  {
    if s == [] then 0
    else
      assert IsDigit(s[|s| - 1]);
      DecimalValue(s[..|s| - 1]) * 10 + (s[|s| - 1] as int - '0' as int)
  }

  /** Reading back the digits of n gives n. */
  lemma {:induction false} DecimalRoundTrip(n: nat)
    ensures DecimalValue(Decimal(n)) == n
    decreases n
  {
    if n >= 10 {
      DecimalRoundTrip(n / 10);
      var s := Decimal(n);
      assert s[..|s| - 1] == Decimal(n / 10);
    }
  }

  /** Different numbers have different decimal digits. */
  lemma DecimalInjective(m: nat, n: nat)
    requires Decimal(m) == Decimal(n)
    ensures m == n
  {
    DecimalRoundTrip(m);
    DecimalRoundTrip(n);
  }

  /** `\w` on a byte string: ASCII letters, digits and the underscore. */
  predicate IsWordChar(c: char) {
    'a' <= c <= 'z' || 'A' <= c <= 'Z' || '0' <= c <= '9' || c == '_'
  }

  /** `\S` on a byte string. */
  predicate NotSpace(c: char) {
    !IsByteSpace(c)
  }

  predicate AllWord(s: string) {
    forall i :: 0 <= i < |s| ==> IsWordChar(s[i])
  }

  predicate NoSpace(s: string) {
    forall i :: 0 <= i < |s| ==> NotSpace(s[i])
  }

  /** file.readline(): the text up to and including the first newline. */
  function FirstLine(content: string): (r: string)
    ensures IsPrefix(r, content)
    ensures '\n' !in content ==> r == content
    ensures '\n' in content ==> |r| > 0 && r[|r| - 1] == '\n' && '\n' !in r[..|r| - 1]
  {
    match Find(content, '\n')
    case None => content
    case Some(i) => content[..i + 1]
  }

  /** The first line of a text that starts without a newline runs on into what follows. */
  lemma FirstLineAfter(h: string, rest: string)
    requires '\n' !in h
    ensures FirstLine(h + rest) == h + FirstLine(rest)
  {
    var s := h + rest;
    match Find(rest, '\n')
    case None =>
      assert '\n' !in s;
    case Some(i) =>
      PrefixAfter(h, rest, i);
      PrefixAfter(h, rest, i + 1);
      assert s[|h| + i] == rest[i];
      FindFirst(s, '\n', |h| + i);
  }

  lemma PrefixAfter(h: string, rest: string, j: nat)
    requires j <= |rest|
    ensures (h + rest)[..|h| + j] == h + rest[..j]
  {
  }
}
