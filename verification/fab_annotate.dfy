/**
 * fablib's `plan_lint` exactly as written. It hashes each block comment with
 * `hashlib.md5(comment)`, and under Python 3 `md5` refuses a `str`: the call
 * raises `TypeError` as soon as the plan holds a block comment. A plan
 * without block comments never reaches the hash, and is linted exactly like
 * the command-line annotator does (names with trailing `*` stripped, an empty
 * plan giving a column of width 3).
 */
module FabAnnotate {
  import opened Wrappers
  import opened Text
  import opened LintText

  /** No key at all: the code as written never gets to key a comment. */
  function Unhashed(comment: string): string
  {
    comment
  }

  /** What fablib's `plan_lint` computes: `TypeError` at the first block comment. */
  ghost function PlanLintAsWrittenOf(text: string, descriptions: map<string, string>): (r: Result<string, LintError>)
  {
    if BlockComment(Strip(text, Unicode)).Some? then Err(TypeError)
    else PlanLintOf(text, descriptions, Unhashed, true, false, Unicode)
  }

  /** fablib's `plan_lint` as written. */
  method PlanLintAsWritten(text: string, descriptions: map<string, string>) returns (r: Result<string, LintError>)
    ensures r == PlanLintAsWrittenOf(text, descriptions)
  {
    var plan := Strip(text, Unicode);
    if BlockComment(plan).Some? {
      return Err(TypeError);
    }
    r := PlanLint(text, descriptions, Unhashed, true, false, Unicode);
  }

  /**
   * Without block comments the hash is never called: the code as written
   * agrees with the corrected linter, whatever key the latter uses.
   */
  lemma AsWrittenAgrees(text: string, descriptions: map<string, string>, key: string -> string)
    requires BlockComment(Strip(text, Unicode)).None?
    ensures PlanLintAsWrittenOf(text, descriptions) == PlanLintOf(text, descriptions, key, true, false, Unicode)
  {
    var plan := Strip(text, Unicode);
    var width := ColumnWidth(PackagesOf(PlanLines(plan), true, Unicode));
    KeyUnused(plan, descriptions, key, Unhashed, true, width, Unicode);
    PlanLintUnfold(text, descriptions, key, true, false, width, Unicode);
    PlanLintUnfold(text, descriptions, Unhashed, true, false, width, Unicode);
  }

  /**
   * With a block comment the code as written always fails with `TypeError`,
   * while the corrected linter (comments keyed by a hash of their text) never
   * does: its only failure is a missing description.
   */
  lemma AsWrittenRejectsComments(text: string, descriptions: map<string, string>, key: string -> string)
    requires BlockComment(Strip(text, Unicode)).Some?
    ensures PlanLintAsWrittenOf(text, descriptions) == Err(TypeError)
    ensures PlanLintOf(text, descriptions, key, true, false, Unicode).Err? ==> PlanLintOf(text, descriptions, key, true, false, Unicode).error.KeyError?
  {
    var plan := Strip(text, Unicode);
    PlanLintUnfold(text, descriptions, key, true, false, ColumnWidth(PackagesOf(PlanLines(plan), true, Unicode)), Unicode);
  }

  /**
   * The smallest plan that shows it: the plan `/**/`, a lone empty comment,
   * makes the code as written raise, while the corrected linter gives the
   * plan back unchanged.
   */
  lemma EmptyCommentPlan(plan: string, descriptions: map<string, string>, key: string -> string)
    requires plan == "/**/" && GoodKeys(key, Unicode)
    ensures PlanLintAsWrittenOf(plan, descriptions) == Err(TypeError)
    ensures PlanLintOf(plan, descriptions, key, true, false, Unicode) == Ok(plan + "\n")
  {
    StripTrimmed(plan, Unicode);
    EmptyCommentLines(plan, key);
    CopiedPlanKept(plan, descriptions, key, true, false, Unicode);
  }

  /** The plan `/**/` swaps to a single line, `$` and the comment's key, which linting copies. */
  lemma EmptyCommentLines(plan: string, key: string -> string)
    requires plan == "/**/" && GoodKeys(key, Unicode)
    ensures BlockComment(plan).Some? && Separated(plan, Unicode) && '$' !in plan
    ensures var lines := Split(Swap(plan, key).text, '\n');
      forall i :: 0 <= i < |lines| ==> Copied(lines[i], Unicode)
  {
    EmptyCommentSwap(plan, key);
    var text := ['$'] + key(plan);
    assert '\n' !in text by {
      assert IsWord(key(plan), Unicode);
    }
    assert Split(text, '\n') == [text];
    assert Copied(text, Unicode);
  }

  lemma EmptyCommentSwap(plan: string, key: string -> string)
    requires plan == "/**/"
    ensures BlockComment(plan).Some? && Separated(plan, Unicode)
    ensures Swap(plan, key).text == ['$'] + key(plan)
  {
    EmptyCommentFound(plan);
    var none: string := [];
    NothingLeft(none, key);
    SwapAt(plan, 0, 2, none, plan, none, key, Unicode);
    var k := key(plan);
    assert k + none == k;
    assert none + (['$'] + k) == ['$'] + k;
  }

  /** The plan `/**/` is one block comment, from its first character to its last. */
  lemma EmptyCommentFound(plan: string)
    requires plan == "/**/"
    ensures FindPair(plan, '/', '*', 0) == Some(0) && FindPair(plan, '*', '/', 2) == Some(2)
    ensures plan[..0] == [] && plan[0..4] == plan && plan[4..] == []
    ensures BlockComment(plan).Some? && Separated(plan, Unicode)
  {
    assert plan[4..] == [];
    assert Separated(plan[4..], Unicode);
  }
}
