/**
 * The package index that `fab-query` writes (pylib/cmd_query.py): every
 * control block contributes its known fields, one `Field: value` line each,
 * in the fixed Debian Policy order, followed by an empty line; the lines are
 * joined with newlines.
 */
module Query {
  import opened Text

  /** A parsed control paragraph: field name to value. */
  type Control = map<string, string>

  /** The fields written to the index, in the order they are written. */
  const Fields: seq<string> := [
    "Package", "Essential", "Priority", "Section", "Installed-Size",
    "Maintainer", "Original-Maintainer", "Uploaders", "Changed-By",
    "Architecture", "Source", "Version",
    "Depends", "Pre-Depends", "Recommends", "Suggests", "Conflicts",
    "Provides", "Replaces", "Enhances",
    "Filename", "Description"]

  /** One index line. */
  function Line(field: string, value: string): string {
    field + ": " + value
  }

  /** The lines of the fields of `fs` that `control` has, in the order of `fs`. */
  function FieldLines(fs: seq<string>, control: Control): (r: seq<string>)
    ensures |r| <= |fs|
    decreases |fs|
  {
    if |fs| == 0 then []
    else
      var f := fs[|fs| - 1];
      FieldLines(fs[..|fs| - 1], control) + (if f in control then [Line(f, control[f])] else [])
  }

  /** The lines one control block contributes, before its separating empty line. */
  function BlockLines(control: Control): seq<string> {
    FieldLines(Fields, control)
  }

  /** `order` lists every key of `m` exactly once: the order in which the dictionary is iterated. */
  ghost predicate Enumerates(order: seq<string>, m: map<string, Control>) {
    (forall i, j :: 0 <= i < j < |order| ==> order[i] != order[j]) &&
    (forall k :: k in order <==> k in m)
  }

  /** All lines of the index for the controls named by `order`, each block closed by an empty line. */
  function IndexLines(dctrls: map<string, Control>, order: seq<string>): (r: seq<string>)
    requires forall k :: k in order ==> k in dctrls
    ensures |r| >= |order|
    decreases |order|
  {
    if |order| == 0 then []
    else
      var n := |order| - 1;
      IndexLines(dctrls, order[..n]) + BlockLines(dctrls[order[n]]) + [""]
  }

  /** The lines of one control, field by field in the fixed order. */
  method EmitFields(control: Control) returns (lines: seq<string>)
    ensures lines == BlockLines(control)
  {
    lines := [];
    for i := 0 to |Fields|
      invariant lines == FieldLines(Fields[..i], control)
    {
      assert Fields[..i + 1][..i] == Fields[..i];
      if Fields[i] in control {
        lines := lines + [Line(Fields[i], control[Fields[i]])];
      }
    }
    assert Fields[..|Fields|] == Fields;
  }

  /** generate_index: the index text for the controls in dictionary order. */
  method GenerateIndex(dctrls: map<string, Control>, order: seq<string>) returns (text: string)
    requires Enumerates(order, dctrls)
    ensures text == Join(IndexLines(dctrls, order), "\n")
  {
    var index: seq<string> := [];
    for n := 0 to |order|
      invariant index == IndexLines(dctrls, order[..n])
    {
      assert order[..n + 1][..n] == order[..n];
      var block := EmitFields(dctrls[order[n]]);
      index := index + block + [""];
    }
    assert order[..|order|] == order;
    text := Join(index, "\n");
  }

  /** The lines of a concatenated field list are the lines of each part in turn. */
  lemma {:induction false} FieldLinesAppend(fs: seq<string>, gs: seq<string>, control: Control)
    ensures FieldLines(fs + gs, control) == FieldLines(fs, control) + FieldLines(gs, control)
    decreases |gs|
  {
    if |gs| == 0 {
      assert fs + gs == fs;
    } else {
      var n := |gs| - 1;
      assert (fs + gs)[..|fs + gs| - 1] == fs + gs[..n];
      FieldLinesAppend(fs, gs[..n], control);
    }
  }

  /** Every line names a listed field the control has, and carries its value. */
  lemma {:induction false} FieldLinesSound(fs: seq<string>, control: Control, i: nat)
    requires i < |FieldLines(fs, control)|
    ensures exists j :: (0 <= j < |fs| && fs[j] in control &&
                         FieldLines(fs, control)[i] == Line(fs[j], control[fs[j]]))
    decreases |fs|
  {
    var n := |fs| - 1;
    var front := FieldLines(fs[..n], control);
    if i < |front| {
      FieldLinesSound(fs[..n], control, i);
      var j :| 0 <= j < n && fs[..n][j] in control && front[i] == Line(fs[..n][j], control[fs[..n][j]]);
      assert fs[j] == fs[..n][j];
    } else {
      assert FieldLines(fs, control)[i] == Line(fs[n], control[fs[n]]);
    }
  }

  /** Every listed field the control has gets its line. */
  lemma {:induction false} FieldLinesComplete(fs: seq<string>, control: Control, j: nat)
    requires j < |fs| && fs[j] in control
    ensures Line(fs[j], control[fs[j]]) in FieldLines(fs, control)
    decreases |fs|
  {
    var n := |fs| - 1;
    if j < n {
      assert fs[..n][j] == fs[j];
      FieldLinesComplete(fs[..n], control, j);
    }
  }

  /** A field the control lacks contributes nothing: removing it from the list changes no line. */
  lemma FieldSkipped(fs: seq<string>, f: string, gs: seq<string>, control: Control)
    requires f !in control
    ensures FieldLines(fs + [f] + gs, control) == FieldLines(fs + gs, control)
  {
    FieldLinesAppend(fs + [f], gs, control);
    FieldLinesAppend(fs, [f], control);
    FieldLinesAppend(fs, gs, control);
    assert ([f])[..0] == [];
  }

  /** The fields come out in list order: fields earlier in the list give earlier lines. */
  lemma FieldOrder(fs: seq<string>, f: string, gs: seq<string>, control: Control)
    requires f in control
    ensures FieldLines(fs + [f] + gs, control) ==
      FieldLines(fs, control) + [Line(f, control[f])] + FieldLines(gs, control)
  {
    FieldLinesAppend(fs + [f], gs, control);
    FieldLinesAppend(fs, [f], control);
    assert ([f])[..0] == [];
  }

  /** No field name holds a colon. */
  lemma FieldNamesColonFree()
    ensures forall j :: 0 <= j < |Fields| ==> ':' !in Fields[j]
  {
  }

  /** No field name holds a newline. */
  lemma FieldNamesNewlineFree()
    ensures forall j :: 0 <= j < |Fields| ==> '\n' !in Fields[j]
  {
  }

  /**
   * Every line of a block is some known field's line; so its text up to the first colon
   * is one of the fixed field names, and a field outside the list never appears.
   */
  lemma BlockLineField(control: Control, i: nat)
    requires i < |BlockLines(control)|
    ensures Before(BlockLines(control)[i], ':') in Fields
    ensures BlockLines(control)[i] != ""
  {
    FieldLinesSound(Fields, control, i);
    var j :| 0 <= j < |Fields| && Fields[j] in control &&
      BlockLines(control)[i] == Line(Fields[j], control[Fields[j]]);
    FieldNamesColonFree();
    LineField(Fields[j], control[Fields[j]]);
  }

  /** The field name of a line is its text before the first colon. */
  lemma LineField(f: string, v: string)
    requires ':' !in f
    ensures Before(Line(f, v), ':') == f
  {
    BeforeFirst(f, ':', " " + v);
    assert Line(f, v) == f + [':'] + (" " + v);
  }

  /** The number of empty lines in a sequence of lines. */
  function Blanks(lines: seq<string>): (n: nat)
    ensures n <= |lines|
    decreases |lines|
  {
    if |lines| == 0 then 0
    else Blanks(lines[..|lines| - 1]) + (if lines[|lines| - 1] == "" then 1 else 0)
  }

  lemma {:induction false} BlanksAppend(a: seq<string>, b: seq<string>)
    ensures Blanks(a + b) == Blanks(a) + Blanks(b)
    decreases |b|
  {
    if |b| == 0 {
      assert a + b == a;
    } else {
      var n := |b| - 1;
      assert (a + b)[..|a + b| - 1] == a + b[..n];
      BlanksAppend(a, b[..n]);
    }
  }

  lemma {:induction false} BlockHasNoBlank(control: Control, n: nat)
    requires n <= |BlockLines(control)|
    ensures Blanks(BlockLines(control)[..n]) == 0
    decreases n
  {
    if n > 0 {
      assert BlockLines(control)[..n][..n - 1] == BlockLines(control)[..n - 1];
      BlockLineField(control, n - 1);
      BlockHasNoBlank(control, n - 1);
    }
  }

  /** Exactly one empty line per control block: the blocks are separated by single empty lines. */
  lemma {:induction false} OneBlankPerBlock(dctrls: map<string, Control>, order: seq<string>)
    requires forall k :: k in order ==> k in dctrls
    ensures Blanks(IndexLines(dctrls, order)) == |order|
    decreases |order|
  {
    if |order| > 0 {
      var n := |order| - 1;
      var block := BlockLines(dctrls[order[n]]);
      OneBlankPerBlock(dctrls, order[..n]);
      BlockHasNoBlank(dctrls[order[n]], |block|);
      assert block[..|block|] == block;
      BlanksAppend(IndexLines(dctrls, order[..n]), block);
      BlanksAppend(IndexLines(dctrls, order[..n]) + block, [""]);
      assert [""][..0] == [];
    }
  }

  /** Appending a control appends its block and one empty line. */
  lemma IndexAppend(dctrls: map<string, Control>, order: seq<string>, k: string)
    requires forall x :: x in order ==> x in dctrls
    requires k in dctrls
    ensures IndexLines(dctrls, order + [k]) == IndexLines(dctrls, order) + BlockLines(dctrls[k]) + [""]
  {
    assert (order + [k])[..|order|] == order;
  }

  /** A block's lines hold no newline when the control's values hold none. */
  lemma {:induction false} BlockLinesFree(control: Control, i: nat)
    requires forall f :: f in control ==> '\n' !in control[f]
    requires i < |BlockLines(control)|
    ensures '\n' !in BlockLines(control)[i]
  {
    FieldLinesSound(Fields, control, i);
    var j :| 0 <= j < |Fields| && Fields[j] in control &&
      BlockLines(control)[i] == Line(Fields[j], control[Fields[j]]);
    FieldNamesNewlineFree();
  }

  lemma {:induction false} IndexLinesFree(dctrls: map<string, Control>, order: seq<string>, i: nat)
    requires forall k :: k in order ==> k in dctrls
    requires forall k, f :: k in dctrls && f in dctrls[k] ==> '\n' !in dctrls[k][f]
    requires i < |IndexLines(dctrls, order)|
    ensures '\n' !in IndexLines(dctrls, order)[i]
    decreases |order|
  {
    var n := |order| - 1;
    var front := IndexLines(dctrls, order[..n]);
    var block := BlockLines(dctrls[order[n]]);
    if i < |front| {
      IndexLinesFree(dctrls, order[..n], i);
    } else if i < |front| + |block| {
      BlockLinesFree(dctrls[order[n]], i - |front|);
    }
  }

  /**
   * When no value holds a newline, splitting the index text at newlines gives back
   * exactly the lines, one per field and one empty line per block.
   */
  lemma IndexSplits(dctrls: map<string, Control>, order: seq<string>)
    requires forall k :: k in order ==> k in dctrls
    requires forall k, f :: k in dctrls && f in dctrls[k] ==> '\n' !in dctrls[k][f]
    requires |order| > 0
    ensures Split(Join(IndexLines(dctrls, order), "\n"), '\n') == IndexLines(dctrls, order)
  {
    var lines := IndexLines(dctrls, order);
    forall i | 0 <= i < |lines| ensures '\n' !in lines[i] {
      IndexLinesFree(dctrls, order, i);
    }
    assert "\n" == ['\n'];
    SplitJoin(lines, '\n');
  }
}
