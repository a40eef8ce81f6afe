/**
 * The bootstrap package list (share/bootstrap/bootstrap_spec.py): a text of
 * `name=version` lines grouped under `# REQUIRED` and `# BASE` headers is
 * read into the two lists of package names handed to debootstrap.
 */
module Bootstrap {
  import opened Wrappers
  import opened Text

  /** The list a header selects. */
  datatype Section = Required | Base

  /** The section a (stripped) line switches to, if it is a header. */
  function SectionOf(line: string): (r: Option<Section>)
    ensures r == Some(Required) <==> line == "# REQUIRED"
    ensures r == Some(Base) <==> line == "# BASE"
    ensures r.None? <==> line != "# REQUIRED" && line != "# BASE"
  {
    if line == "# REQUIRED" then Some(Required)
    else if line == "# BASE" then Some(Base)
    else None
  }

  /**
   * Why a spec is refused: a package line that does not split into exactly
   * a name and a version at `=`, or a package line before any header.
   */
  datatype SpecError = NotOneEquals(line: string) | NoSection(line: string)

  /** The names read so far into each list, and the list the last header selected. */
  datatype State = State(required: seq<string>, base: seq<string>, section: Option<Section>)

  const Start := State([], [], None)

  /** The effect of one raw line. */
  function Step(st: State, raw: string): Result<State, SpecError> {
    var line := Strip(raw, Bytes);
    match SectionOf(line)
    case Some(s) => Ok(st.(section := Some(s)))
    case None =>
      if line == "" then Ok(st)
      else
        var parts := Split(line, '=');
        if |parts| != 2 then Err(NotOneEquals(line))
        else match st.section
          case None => Err(NoSection(line))
          case Some(Required) => Ok(st.(required := st.required + [parts[0]]))
          case Some(Base) => Ok(st.(base := st.base + [parts[0]]))
  }

  /** The state after reading `lines`, or the error of the first line refused. */
  function Parse(lines: seq<string>): Result<State, SpecError>
    decreases |lines|
  {
    if |lines| == 0 then Ok(Start)
    else match Parse(lines[..|lines| - 1])
      case Err(e) => Err(e)
      case Ok(st) => Step(st, lines[|lines| - 1])
  }

  /** An error stops the reading: the lines after it make no difference. */
  lemma {:induction false} ErrorStops(lines: seq<string>, n: nat)
    requires n <= |lines| && Parse(lines[..n]).Err?
    ensures Parse(lines) == Parse(lines[..n])
    decreases |lines| - n
  {
    if n < |lines| {
      assert lines[..n + 1][..n] == lines[..n];
      ErrorStops(lines, n + 1);
    } else {
      assert lines[..n] == lines;
    }
  }

  /** parse_bootstrap_spec: the required and the base package names, in the order listed. */
  method ParseBootstrapSpec(raw: seq<string>) returns (r: Result<(seq<string>, seq<string>), SpecError>)
    ensures r.Ok? <==> Parse(raw).Ok?
    ensures r.Ok? ==> r.value == (Parse(raw).value.required, Parse(raw).value.base)
    ensures r.Err? ==> r.error == Parse(raw).error
  {
    var required: seq<string> := [];
    var base: seq<string> := [];
    var section: Option<Section> := None;
    for n := 0 to |raw|
      invariant Parse(raw[..n]) == Ok(State(required, base, section))
    {
      assert raw[..n + 1][..n] == raw[..n];
      var line := Strip(raw[n], Bytes);
      var s := SectionOf(line);
      if s.Some? {
        section := s;
        continue;
      }
      if line != "" {
        var parts := Split(line, '=');
        if |parts| != 2 {
          ErrorStops(raw, n + 1);
          return Err(NotOneEquals(line));
        }
        if section.None? {
          ErrorStops(raw, n + 1);
          return Err(NoSection(line));
        }
        if section.value == Required {
          required := required + [parts[0]];
        } else {
          base := base + [parts[0]];
        }
      }
    }
    assert raw[..|raw|] == raw;
    r := Ok((required, base));
  }

  /** One line never removes a name from either list. */
  lemma StepGrows(st: State, raw: string)
    requires Step(st, raw).Ok?
    ensures st.required <= Step(st, raw).value.required
    ensures st.base <= Step(st, raw).value.base
  {
  }

  /** Reading goes line by line: the lists after more lines extend the lists after fewer. */
  lemma {:induction false} ListsOnlyGrow(lines: seq<string>, n: nat)
    requires n <= |lines| && Parse(lines).Ok?
    ensures Parse(lines[..n]).Ok?
    ensures Parse(lines[..n]).value.required <= Parse(lines).value.required
    ensures Parse(lines[..n]).value.base <= Parse(lines).value.base
    decreases |lines| - n
  {
    if n == |lines| {
      assert lines[..n] == lines;
    } else {
      var m := |lines| - 1;
      var front := lines[..m];
      assert front[..n] == lines[..n];
      assert Parse(lines) == match Parse(front) case Err(e) => Err(e) case Ok(st) => Step(st, lines[m]);
      assert Parse(front).Ok?;
      StepGrows(Parse(front).value, lines[m]);
      ListsOnlyGrow(front, n);
    }
  }

  /** A blank line changes nothing. */
  lemma BlankSkipped(lines: seq<string>, blank: string)
    requires AllSpace(blank, Bytes)
    ensures Parse(lines + [blank]) == Parse(lines)
  {
    assert (lines + [blank])[..|lines|] == lines;
    StripEnds(blank, Bytes);
  }

  /** A header line selects its list and records nothing. */
  lemma HeaderSwitches(lines: seq<string>, header: string, s: Section)
    requires Parse(lines).Ok? && SectionOf(Strip(header, Bytes)) == Some(s)
    ensures Parse(lines + [header]) == Ok(Parse(lines).value.(section := Some(s)))
  {
    assert (lines + [header])[..|lines|] == lines;
  }

  /**
   * Until a header is read there is no list to add to: a spec whose lines hold no header
   * is accepted only when every line is blank.
   */
  lemma {:induction false} NoHeaderAllBlank(lines: seq<string>)
    requires forall i :: 0 <= i < |lines| ==> SectionOf(Strip(lines[i], Bytes)).None?
    requires Parse(lines).Ok?
    ensures Parse(lines).value == Start
    ensures forall i :: 0 <= i < |lines| ==> Strip(lines[i], Bytes) == ""
    decreases |lines|
  {
    if |lines| > 0 {
      var m := |lines| - 1;
      if Parse(lines[..m]).Err? {
        assert false;
      }
      forall i | 0 <= i < m ensures SectionOf(Strip(lines[..m][i], Bytes)).None? {
        assert lines[..m][i] == lines[i];
      }
      NoHeaderAllBlank(lines[..m]);
      forall i | 0 <= i < m ensures Strip(lines[i], Bytes) == "" {
        assert lines[..m][i] == lines[i];
      }
    }
  }

  /** A package entry `name=version` with no whitespace and no `=` in either part. */
  predicate Plain(s: string) {
    forall i :: 0 <= i < |s| ==> !IsSpace(s[i], Bytes) && s[i] != '='
  }

  /** The raw lines listing packages, each ending with a newline as read from the file. */
  function EntryLines(pkgs: seq<(string, string)>): (r: seq<string>)
    ensures |r| == |pkgs|
    decreases |pkgs|
  {
    if |pkgs| == 0 then []
    else EntryLines(pkgs[..|pkgs| - 1]) + [pkgs[|pkgs| - 1].0 + "=" + pkgs[|pkgs| - 1].1 + "\n"]
  }

  function Names(pkgs: seq<(string, string)>): (r: seq<string>)
    ensures |r| == |pkgs|
    decreases |pkgs|
  {
    if |pkgs| == 0 then [] else Names(pkgs[..|pkgs| - 1]) + [pkgs[|pkgs| - 1].0]
  }

  /** The spec file listing `req` under `# REQUIRED` and then `base` under `# BASE`. */
  function Render(req: seq<(string, string)>, base: seq<(string, string)>): seq<string> {
    ["# REQUIRED\n"] + EntryLines(req) + ["# BASE\n"] + EntryLines(base)
  }

  /** An entry line strips to `name=version`, which splits into the name and the version. */
  lemma EntryLine(name: string, version: string)
    requires Plain(name) && Plain(version)
    ensures Strip(name + "=" + version + "\n", Bytes) == name + "=" + version
    ensures SectionOf(name + "=" + version).None?
    ensures Split(name + "=" + version, '=') == [name, version]
  {
    var line := name + "=" + version;
    var raw := line + "\n";
    assert line[|name|] == '=';
    assert !IsSpace(line[0], Bytes) && !IsSpace(line[|line| - 1], Bytes);
    assert raw[0] == line[0];
    assert TrimLeft(raw, Spaces(Bytes)) == raw;
    assert raw[..|raw| - 1] == line;
    assert TrimRight(raw, Spaces(Bytes)) == TrimRight(line, Spaces(Bytes));
    StripTrimmed(line, Bytes);
    assert "# REQUIRED"[1] == ' ' && "# BASE"[1] == ' ';
    assert line != "# REQUIRED" && line != "# BASE";
    assert '=' !in name && '=' !in version;
    SplitJoin([name, version], '=');
    assert Join([name, version], ['=']) == line;
  }

  /** An entry line appends its name to the selected list. */
  lemma StepEntry(st: State, name: string, version: string, s: Section)
    requires Plain(name) && Plain(version) && st.section == Some(s)
    ensures s == Required ==> Step(st, name + "=" + version + "\n") == Ok(st.(required := st.required + [name]))
    ensures s == Base ==> Step(st, name + "=" + version + "\n") == Ok(st.(base := st.base + [name]))
  {
    EntryLine(name, version);
  }

  /** Entry lines read under a header append their names, in order, to the selected list. */
  lemma {:induction false} EntriesAppend(lines: seq<string>, pkgs: seq<(string, string)>, s: Section)
    requires forall i :: 0 <= i < |pkgs| ==> Plain(pkgs[i].0) && Plain(pkgs[i].1)
    requires Parse(lines).Ok? && Parse(lines).value.section == Some(s)
    ensures s == Required ==>
      Parse(lines + EntryLines(pkgs)) == Ok(Parse(lines).value.(required := Parse(lines).value.required + Names(pkgs)))
    ensures s == Base ==>
      Parse(lines + EntryLines(pkgs)) == Ok(Parse(lines).value.(base := Parse(lines).value.base + Names(pkgs)))
    decreases |pkgs|
  {
    var st := Parse(lines).value;
    if |pkgs| == 0 {
      assert lines + EntryLines(pkgs) == lines;
      assert st.required + [] == st.required && st.base + [] == st.base;
    } else {
      var m := |pkgs| - 1;
      var name, version := pkgs[m].0, pkgs[m].1;
      var front := lines + EntryLines(pkgs[..m]);
      var all := lines + EntryLines(pkgs);
      assert all == front + [name + "=" + version + "\n"];
      assert all[..|all| - 1] == front;
      EntriesAppend(lines, pkgs[..m], s);
      var mid := Parse(front).value;
      assert Parse(all) == Step(mid, name + "=" + version + "\n");
      StepEntry(mid, name, version, s);
      assert Names(pkgs) == Names(pkgs[..m]) + [name];
      if s == Required {
        AppendAssoc(st.required, Names(pkgs[..m]), [name]);
      } else {
        AppendAssoc(st.base, Names(pkgs[..m]), [name]);
      }
    }
  }

  lemma AppendAssoc<T>(a: seq<T>, b: seq<T>, c: seq<T>)
    ensures a + b + c == a + (b + c)
  {
  }

  /** A spec written out with both headers reads back as its two lists of names. */
  lemma RenderRoundTrip(req: seq<(string, string)>, base: seq<(string, string)>)
    requires forall i :: 0 <= i < |req| ==> Plain(req[i].0) && Plain(req[i].1)
    requires forall i :: 0 <= i < |base| ==> Plain(base[i].0) && Plain(base[i].1)
    ensures Parse(Render(req, base)) == Ok(State(Names(req), Names(base), Some(Base)))
  {
    var r, b := "# REQUIRED\n", "# BASE\n";
    HeaderLine("# REQUIRED");
    HeaderLine("# BASE");
    assert "# REQUIRED" + "\n" == r && "# BASE" + "\n" == b;
    assert Parse([]) == Ok(Start);
    BlockRead([], r, Required, req);
    assert [] + [r] == [r] && [] + Names(req) == Names(req);
    var a := [r] + EntryLines(req);
    BlockRead(a, b, Base, base);
    assert [] + Names(base) == Names(base);
    assert Render(req, base) == a + [b] + EntryLines(base);
  }

  /** A header and its entry lines after a spec that reads: the names go to the header's list. */
  lemma BlockRead(lines: seq<string>, header: string, s: Section, pkgs: seq<(string, string)>)
    requires Parse(lines).Ok? && SectionOf(Strip(header, Bytes)) == Some(s)
    requires forall i :: 0 <= i < |pkgs| ==> Plain(pkgs[i].0) && Plain(pkgs[i].1)
    ensures var st := Parse(lines).value;
      Parse(lines + [header] + EntryLines(pkgs)) ==
        Ok(if s == Required then st.(required := st.required + Names(pkgs), section := Some(s))
           else st.(base := st.base + Names(pkgs), section := Some(s)))
  {
    HeaderSwitches(lines, header, s);
    EntriesAppend(lines + [header], pkgs, s);
  }

  /** A header line read from the file, newline included, strips to the header. */
  lemma HeaderLine(h: string)
    requires h == "# REQUIRED" || h == "# BASE"
    ensures Strip(h + "\n", Bytes) == h
  {
    var raw := h + "\n";
    assert raw[0] == '#';
    assert TrimLeft(raw, Spaces(Bytes)) == raw;
    assert raw[..|raw| - 1] == h;
    assert h[|h| - 1] == 'D' || h[|h| - 1] == 'E';
    StripTrimmed(h, Bytes);
  }
}
