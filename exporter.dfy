/**
 * The exporter's cell loop (`TextbookExporter.from_notebook_node`): every
 * markdown and code cell is rendered in turn, its resources are gathered
 * into the `textbook` dictionary, and the headings of the whole notebook
 * become the section index.
 */
module Exporter {
  import opened Wrappers
  import opened Strings
  import opened Notebook
  import Scanner
  import CodeCells
  import opened Resources

  // ---------------------------------------------------------------------------
  // Fill-in-the-blank syntax: `blank_regex`, `\[\[(.+?)]]`

  /** A match of `blank_regex` from `i` to the closing brackets at `j`: nothing in between is a line break. */
  predicate BlankMatch(s: string, i: nat, j: nat) {
    && StartsAt(s, i, "[[")
    && i + 3 <= j
    && StartsAt(s, j, "]]")
    && (forall k :: i + 2 <= k < j ==> s[k] != '\n')
  }

  /** Whether a blank starts at `i`, decided by searching the rest of the line for `]]`. */
  predicate BlankAt(s: string, i: nat) {
    StartsAt(s, i, "[[") && i + 2 < |s| && s[i + 2] != '\n' && FindInLine(s, "]]", i + 3).Some?
  }

  /** The first position at or after `from` where a blank starts. */
  function FirstBlank(s: string, from: nat): (r: Option<nat>)
    decreases |s| - from
    ensures r.Some? ==> from <= r.value && BlankAt(s, r.value)
    ensures r.None? ==> forall i: nat :: from <= i ==> !BlankAt(s, i)
  {
    if from >= |s| then None
    else if BlankAt(s, from) then Some(from)
    else FirstBlank(s, from + 1)
  }

  /** `len(blank_regex.findall(source)) > 0`. */
  predicate HasBlank(s: string) {
    FirstBlank(s, 0).Some?
  }

  lemma {:induction false} FindInLineComplete(s: string, p: string, from: nat, j: nat)
    requires from <= j && StartsAt(s, j, p) && |p| > 0
    requires forall k :: from <= k < j ==> s[k] != '\n'
    decreases j - from
    ensures FindInLine(s, p, from).Some?
  {
    if from < j && !StartsAt(s, from, p) {
      FindInLineComplete(s, p, from + 1, j);
    }
  }

  /** The search finds a blank exactly when the regular expression has a match. */
  lemma BlankSemantics(s: string)
    ensures HasBlank(s) <==> exists i: nat, j: nat :: BlankMatch(s, i, j)
  {
    if HasBlank(s) {
      var i := FirstBlank(s, 0).value;
      var j := FindInLine(s, "]]", i + 3).value;
      assert BlankMatch(s, i, j);
    }
    if i: nat, j: nat :| BlankMatch(s, i, j) {
      FindInLineComplete(s, "]]", i + 3, j);
      assert BlankAt(s, i);
    }
  }

  lemma BlankExample()
    ensures HasBlank("[[x]]")
    ensures !HasBlank("[[]]")
    ensures !HasBlank("[[x\n]]")
  {
    assert BlankAt("[[x]]", 0) by {
      assert StartsAt("[[x]]", 3, "]]");
    }
    var s := "[[]]";
    assert FindInLine(s, "]]", 3) == None;
    forall i: nat | true ensures !BlankAt(s, i) {
      if i == 1 {
        assert s[1..3][1] == ']';
      }
    }
    var t := "[[x\n]]";
    assert t[3..5][0] == '\n';
    assert FindInLine(t, "]]", 3) == None;
    forall i: nat | true ensures !BlankAt(t, i) {
      if 1 <= i <= 4 {
        assert t[i..i + 2][1] == t[i + 1] != '[';
      }
    }
  }

  // ---------------------------------------------------------------------------
  // One cell

  /** The variables of the cell loop; `goals` is `None` while the Python name is still unbound. */
  datatype ExportState = ExportState(
    lines: seq<string>,
    headings: seq<Scanner.HeadingEntry>,
    goals: Option<seq<string>>,
    textbook: Textbook)

  /** The cell-id prefix: the notebook id with everything but ASCII letters removed, in lower case. */
  function Prefix(t: Textbook): (p: string)
    ensures forall k :: 0 <= k < |p| ==> 'a' <= p[k] <= 'z'
  {
    if t.id.Some? then LowerLetters(t.id.value) else ""
  }

  function LowerLetters(s: string): (r: string)
    ensures forall k :: 0 <= k < |r| ==> 'a' <= r[k] <= 'z'
  {
    var l := LettersOnly(s);
    LowerOfLetters(l);
    Lower(l)
  }

  lemma {:induction false} LowerOfLetters(s: string)
    requires forall k :: 0 <= k < |s| ==> IsAsciiLetter(s[k])
    ensures forall k :: 0 <= k < |Lower(s)| ==> 'a' <= Lower(s)[k] <= 'z'
  {
    if s != [] {
      LowerOfLetters(s[1..]);
      assert Lower(s) == Lower(s[..1]) + Lower(s[1..]);
    }
  }

  /** The two lines announcing a cell's goals, when it has any. */
  function GoalsHeader(id: string, goals: seq<string>): seq<string> {
    if goals == [] then []
    else ["\n---\n> id: " + id, "\n> goals: " + Join(goals, " ") + "\n\n"]
  }

  /** A markdown cell: glossary, formulas, goals (unless it has blanks), then the rendered text. */
  function MarkdownStep(st: ExportState, cell: Cell, count: nat, prefix: string, isProblemSet: bool): Option<ExportState> {
    var id := prefix + NatToString(count);
    var merged := FormulasStep(GlossaryStep(st.textbook, cell.metadata), cell.metadata);
    var blanks := HasBlank(cell.source);
    var goals := if blanks then st.goals else Some(CellGoalIds(cell.metadata));
    var t := if blanks then merged else GoalsStep(merged, id, cell.metadata);
    var opening := if blanks then ["\n---\n> id: " + id + "\n\n"] else GoalsHeader(id, goals.value);
    match Scanner.MarkdownCellOf(Scanner.Context(cell, count, t.section, isProblemSet))
    case None => None
    case Some(md) =>
      if goals.None? then None
      else
        var closing := if blanks || goals.value != [] then ["\n\n---\n"] else [];
        Some(ExportState(st.lines + opening + [md.text] + closing, st.headings + md.headings, goals, t))
  }

  /** Code cells tagged `sanity-check` are left out of the textbook. */
  predicate SanityCheck(md: Metadata) {
    md.tags.Some? && "sanity-check" in md.tags.value
  }

  /** A code cell the loop skips: blank source or a sanity check. */
  predicate SkippedCode(cell: Cell) {
    Strip(cell.source) == [] || SanityCheck(cell.metadata)
  }

  /** A code cell: its goals, then the rendered code and outputs. */
  function CodeStep(st: ExportState, cell: Cell, count: nat, prefix: string): Option<ExportState> {
    if SkippedCode(cell) then Some(st)
    else if !CodeCells.CodeCellDefined(cell, st.textbook.includeOutput) then None
    else
      var id := prefix + NatToString(count);
      var ids := CellGoalIds(cell.metadata);
      var t := GoalsStep(st.textbook, id, cell.metadata);
      Some(ExportState(st.lines + GoalsHeader(id, ids) + [CodeCells.CodeCellOf(cell, t.includeOutput)],
                       st.headings, Some(ids), t))
  }

  /** One iteration of the loop; `None` when the Python code raises. Raw cells are skipped. */
  function CellStep(st: ExportState, cell: Cell, count: nat, prefix: string, isProblemSet: bool): Option<ExportState> {
    match cell.kind
    case Markdown => MarkdownStep(st, cell, count, prefix, isProblemSet)
    case Code => CodeStep(st, cell, count, prefix)
    case Raw => Some(st)
  }

  /** The loop over the first cells, from the state `start`. */
  function ExportFold(cells: seq<Cell>, prefix: string, isProblemSet: bool, start: ExportState): Option<ExportState>
    decreases |cells|
  {
    if cells == [] then Some(start)
    else
      match ExportFold(cells[..|cells| - 1], prefix, isProblemSet, start)
      case None => None
      case Some(st) => CellStep(st, cells[|cells| - 1], |cells| - 1, prefix, isProblemSet)
  }

  // ---------------------------------------------------------------------------
  // The whole notebook

  /** The converted markdown and the updated `textbook` resources. */
  datatype Exported = Exported(text: string, textbook: Textbook)

  function IsProblemSet(t: Textbook): bool {
    t.isProblemSet.GetOr(false)
  }

  /** After the loop: store the index, add the final line break and, in a problem set, drop the first rule. */
  function Finish(st: ExportState, isProblemSet: bool): Exported {
    var t := if st.headings != [] then IndexSet(st.textbook, IndexOf(st.headings)) else st.textbook;
    var full := Concat(st.lines + ["\n"]);
    Exported(if isProblemSet then ReplaceFirst(full, "\n---\n\n>", "\n\n>") else full, t)
  }

  /** The conversion, starting with the goals name bound as given. */
  function ExportFrom(cells: seq<Cell>, t: Textbook, goals: Option<seq<string>>): Option<Exported> {
    match ExportFold(cells, Prefix(t), IsProblemSet(t), ExportState([], [], goals, t))
    case None => None
    case Some(st) => Some(Finish(st, IsProblemSet(t)))
  }

  /** `from_notebook_node` as written: `goals` is unbound until a cell assigns it. */
  function ExportAsWritten(cells: seq<Cell>, t: Textbook): Option<Exported> {
    ExportFrom(cells, t, None)
  }

  /** `from_notebook_node` with `goals` bound to the empty list before the loop. */
  function Export(cells: seq<Cell>, t: Textbook): Option<Exported> {
    ExportFrom(cells, t, Some([]))
  }

  // ---------------------------------------------------------------------------
  // What the loop keeps

  /** The entries no cell handler writes. */
  predicate SameSettings(a: Textbook, b: Textbook) {
    a.index == b.index && a.id == b.id && a.section == b.section
    && a.isProblemSet == b.isProblemSet && a.includeOutput == b.includeOutput
  }

  /** A cell renders without raising (given the settings the loop never changes). */
  predicate CellDefined(cell: Cell, count: nat, t: Textbook, isProblemSet: bool) {
    match cell.kind
    case Markdown => Scanner.MarkdownCellOf(Scanner.Context(cell, count, t.section, isProblemSet)).Some?
    case Code => SkippedCode(cell) || CodeCells.CodeCellDefined(cell, t.includeOutput)
    case Raw => true
  }

  /** The loop over one more cell unfolds to one more step. */
  lemma FoldSnoc(cells: seq<Cell>, n: nat, prefix: string, isProblemSet: bool, start: ExportState)
    requires n < |cells|
    ensures ExportFold(cells[..n + 1], prefix, isProblemSet, start)
         == match ExportFold(cells[..n], prefix, isProblemSet, start)
            case None => None
            case Some(st) => CellStep(st, cells[n], n, prefix, isProblemSet)
  {
    assert cells[..n + 1][..n] == cells[..n];
  }

  /** Once a cell raises, the conversion has failed whatever follows. */
  lemma {:induction false} FailureSticks(cells: seq<Cell>, more: seq<Cell>, prefix: string, isProblemSet: bool, start: ExportState)
    requires ExportFold(cells, prefix, isProblemSet, start).None?
    decreases |more|
    ensures ExportFold(cells + more, prefix, isProblemSet, start).None?
  {
    if more != [] {
      var init := cells + more[..|more| - 1];
      FailureSticks(cells, more[..|more| - 1], prefix, isProblemSet, start);
      assert (cells + more)[..|cells + more| - 1] == init;
    } else {
      assert cells + more == cells;
    }
  }

  lemma SplitAt<T>(xs: seq<T>, n: nat)
    requires n <= |xs|
    ensures xs[..n] + xs[n..] == xs
  {
  }

  /** A failure on the first `n` cells is a failure of the whole notebook. */
  lemma FailureOnPrefix(cells: seq<Cell>, n: nat, prefix: string, isProblemSet: bool, start: ExportState)
    requires n <= |cells| && ExportFold(cells[..n], prefix, isProblemSet, start).None?
    ensures ExportFold(cells, prefix, isProblemSet, start).None?
  {
    FailureSticks(cells[..n], cells[n..], prefix, isProblemSet, start);
    SplitAt(cells, n);
  }

  /** What one loop step keeps: the settings, a bound `goals`, the earlier lines, keys and functions. */
  predicate StepKeeps(st: ExportState, st': ExportState) {
    && SameSettings(st.textbook, st'.textbook)
    && (st.goals.Some? ==> st'.goals.Some?)
    && |st.lines| <= |st'.lines| && st'.lines[..|st.lines|] == st.lines
    && (st.textbook.glossary.Some? ==> st'.textbook.glossary.Some? && st.textbook.glossary.value.Keys <= st'.textbook.glossary.value.Keys)
    && (st.textbook.formulas.Some? ==> st'.textbook.formulas.Some? && st.textbook.formulas.value.Keys <= st'.textbook.formulas.value.Keys)
    && (st.textbook.functions.Some? ==> st'.textbook.functions.Some? && StartsWith(st'.textbook.functions.value, st.textbook.functions.value))
  }

  lemma MarkdownStepFacts(st: ExportState, cell: Cell, count: nat, prefix: string, isProblemSet: bool)
    ensures st.goals.Some? ==>
      (MarkdownStep(st, cell, count, prefix, isProblemSet).Some?
       <==> Scanner.MarkdownCellOf(Scanner.Context(cell, count, st.textbook.section, isProblemSet)).Some?)
    ensures MarkdownStep(st, cell, count, prefix, isProblemSet).Some? ==>
      StepKeeps(st, MarkdownStep(st, cell, count, prefix, isProblemSet).value)
  {
    var r := MarkdownStep(st, cell, count, prefix, isProblemSet);
    if r.Some? {
      var id := prefix + NatToString(count);
      var merged := FormulasStep(GlossaryStep(st.textbook, cell.metadata), cell.metadata);
      if st.textbook.functions.Some? {
        GoalsAppendOnly(merged, id, cell.metadata);
      }
      assert r.value.lines[..|st.lines|] == st.lines;
    }
  }

  lemma CodeStepFacts(st: ExportState, cell: Cell, count: nat, prefix: string)
    ensures CodeStep(st, cell, count, prefix).Some?
       <==> SkippedCode(cell) || CodeCells.CodeCellDefined(cell, st.textbook.includeOutput)
    ensures CodeStep(st, cell, count, prefix).Some? ==> StepKeeps(st, CodeStep(st, cell, count, prefix).value)
  {
    var r := CodeStep(st, cell, count, prefix);
    if r.Some? && !SkippedCode(cell) {
      var id := prefix + NatToString(count);
      if st.textbook.functions.Some? {
        GoalsAppendOnly(st.textbook, id, cell.metadata);
      }
      assert r.value.lines[..|st.lines|] == st.lines;
    }
  }

  /** One step of the loop: it fails exactly when the cell cannot be rendered, and keeps what `StepKeeps` names. */
  lemma StepFacts(st: ExportState, cell: Cell, count: nat, prefix: string, isProblemSet: bool)
    ensures st.goals.Some? ==>
      (CellStep(st, cell, count, prefix, isProblemSet).Some? <==> CellDefined(cell, count, st.textbook, isProblemSet))
    ensures CellStep(st, cell, count, prefix, isProblemSet).Some? ==>
      StepKeeps(st, CellStep(st, cell, count, prefix, isProblemSet).value)
  {
    if cell.kind == Markdown {
      MarkdownStepFacts(st, cell, count, prefix, isProblemSet);
    } else if cell.kind == Code {
      CodeStepFacts(st, cell, count, prefix);
    }
  }

  lemma StepKeepsRefl(st: ExportState)
    ensures StepKeeps(st, st)
  {
    assert st.lines[..|st.lines|] == st.lines;
    if st.textbook.functions.Some? {
      var f := st.textbook.functions.value;
      assert f[..|f|] == f;
    }
  }

  lemma StepKeepsTrans(a: ExportState, b: ExportState, c: ExportState)
    requires StepKeeps(a, b) && StepKeeps(b, c)
    ensures StepKeeps(a, c)
  {
    assert c.lines[..|a.lines|] == c.lines[..|b.lines|][..|a.lines|];
    if a.textbook.functions.Some? {
      StartsWithTrans(c.textbook.functions.value, b.textbook.functions.value, a.textbook.functions.value);
    }
  }

  /**
   * The loop leaves the index, the id, the section and the settings alone,
   * keeps `goals` bound once it is, and only ever adds lines, glossary and
   * formula keys, and goal functions.
   */
  lemma {:induction false} FoldKeeps(cells: seq<Cell>, prefix: string, isProblemSet: bool, start: ExportState)
    requires ExportFold(cells, prefix, isProblemSet, start).Some?
    decreases |cells|
    ensures StepKeeps(start, ExportFold(cells, prefix, isProblemSet, start).value)
  {
    if cells == [] {
      StepKeepsRefl(start);
    } else {
      var init := cells[..|cells| - 1];
      FoldKeeps(init, prefix, isProblemSet, start);
      var st := ExportFold(init, prefix, isProblemSet, start).value;
      StepFacts(st, cells[|cells| - 1], |cells| - 1, prefix, isProblemSet);
      StepKeepsTrans(start, st, ExportFold(cells, prefix, isProblemSet, start).value);
    }
  }

  lemma AllDefinedSnoc(cells: seq<Cell>, init: seq<Cell>, t: Textbook, isProblemSet: bool)
    requires cells != [] && init == cells[..|cells| - 1]
    ensures (forall k :: 0 <= k < |cells| ==> CellDefined(cells[k], k, t, isProblemSet))
        <==> (forall k :: 0 <= k < |init| ==> CellDefined(init[k], k, t, isProblemSet))
             && CellDefined(cells[|cells| - 1], |init|, t, isProblemSet)
  {
    if (forall k :: 0 <= k < |init| ==> CellDefined(init[k], k, t, isProblemSet)) && CellDefined(cells[|cells| - 1], |init|, t, isProblemSet) {
      AllDefinedGrow(cells, init, t, isProblemSet);
    }
    if forall k :: 0 <= k < |cells| ==> CellDefined(cells[k], k, t, isProblemSet) {
      AllDefinedShrink(cells, init, t, isProblemSet);
    }
  }

  lemma AllDefinedGrow(cells: seq<Cell>, init: seq<Cell>, t: Textbook, isProblemSet: bool)
    requires cells != [] && init == cells[..|cells| - 1]
    requires forall k :: 0 <= k < |init| ==> CellDefined(init[k], k, t, isProblemSet)
    requires CellDefined(cells[|cells| - 1], |init|, t, isProblemSet)
    ensures forall k :: 0 <= k < |cells| ==> CellDefined(cells[k], k, t, isProblemSet)
  {
    forall k | 0 <= k < |cells| ensures CellDefined(cells[k], k, t, isProblemSet) {
      if k < |init| {
        assert cells[k] == init[k];
      }
    }
  }

  lemma AllDefinedShrink(cells: seq<Cell>, init: seq<Cell>, t: Textbook, isProblemSet: bool)
    requires cells != [] && init == cells[..|cells| - 1]
    requires forall k :: 0 <= k < |cells| ==> CellDefined(cells[k], k, t, isProblemSet)
    ensures forall k :: 0 <= k < |init| ==> CellDefined(init[k], k, t, isProblemSet)
  {
    forall k | 0 <= k < |init| ensures CellDefined(init[k], k, t, isProblemSet) {
      assert cells[k] == init[k];
    }
  }

  /** Every cell renders, counted from the front. */
  predicate AllDefined(cells: seq<Cell>, t: Textbook, isProblemSet: bool)
    decreases |cells|
  {
    cells == []
    || (AllDefined(cells[..|cells| - 1], t, isProblemSet) && CellDefined(cells[|cells| - 1], |cells| - 1, t, isProblemSet))
  }

  lemma {:induction false} AllDefinedMeaning(cells: seq<Cell>, t: Textbook, isProblemSet: bool)
    decreases |cells|
    ensures AllDefined(cells, t, isProblemSet) <==> forall k :: 0 <= k < |cells| ==> CellDefined(cells[k], k, t, isProblemSet)
  {
    if cells != [] {
      var init := cells[..|cells| - 1];
      AllDefinedMeaning(init, t, isProblemSet);
      AllDefinedSnoc(cells, init, t, isProblemSet);
    }
  }

  lemma CellDefinedSettings(c: Cell, n: nat, a: Textbook, b: Textbook, isProblemSet: bool)
    requires SameSettings(a, b)
    ensures CellDefined(c, n, a, isProblemSet) == CellDefined(c, n, b, isProblemSet)
  {
  }

  /**
   * With `goals` bound before the loop, the conversion fails exactly when some
   * cell cannot be rendered.
   */
  lemma {:induction false} ExportDefined(cells: seq<Cell>, prefix: string, isProblemSet: bool, start: ExportState)
    requires start.goals.Some?
    decreases |cells|
    ensures ExportFold(cells, prefix, isProblemSet, start).Some? <==> AllDefined(cells, start.textbook, isProblemSet)
  {
    if cells != [] {
      var init := cells[..|cells| - 1];
      ExportDefined(init, prefix, isProblemSet, start);
      var n, c := |cells| - 1, cells[|cells| - 1];
      var r := ExportFold(init, prefix, isProblemSet, start);
      if r.Some? {
        FoldKeeps(init, prefix, isProblemSet, start);
        StepFacts(r.value, c, n, prefix, isProblemSet);
        CellDefinedSettings(c, n, r.value.textbook, start.textbook, isProblemSet);
      }
    }
  }

  // ---------------------------------------------------------------------------
  // Properties of the whole conversion

  /** An index already in the resources is never replaced; otherwise it is built from the headings. */
  lemma ExportIndex(cells: seq<Cell>, t: Textbook)
    requires Export(cells, t).Some?
    ensures t.index.Some? ==> Export(cells, t).value.textbook.index == t.index
    ensures var st := ExportFold(cells, Prefix(t), IsProblemSet(t), ExportState([], [], Some([]), t)).value;
      t.index.None? ==>
        Export(cells, t).value.textbook.index == if st.headings != [] then Some(IndexOf(st.headings)) else None
  {
    FoldKeeps(cells, Prefix(t), IsProblemSet(t), ExportState([], [], Some([]), t));
    ExportOfFold(cells, t);
  }

  /** Glossary entries gathered earlier stay in the glossary. */
  lemma ExportKeepsGlossary(cells: seq<Cell>, t: Textbook)
    requires Export(cells, t).Some? && t.glossary.Some?
    ensures Export(cells, t).value.textbook.glossary.Some?
    ensures t.glossary.value.Keys <= Export(cells, t).value.textbook.glossary.value.Keys
  {
    FoldKeeps(cells, Prefix(t), IsProblemSet(t), ExportState([], [], Some([]), t));
  }

  /** Earlier goal functions stay at the front of `functions`. */
  lemma ExportKeepsFunctions(cells: seq<Cell>, t: Textbook)
    requires Export(cells, t).Some? && t.functions.Some?
    ensures Export(cells, t).value.textbook.functions.Some?
    ensures StartsWith(Export(cells, t).value.textbook.functions.value, t.functions.value)
  {
    FoldKeeps(cells, Prefix(t), IsProblemSet(t), ExportState([], [], Some([]), t));
  }

  /** The conversion fails exactly when one of the cells cannot be rendered. */
  lemma ExportFailsOnlyOnCells(cells: seq<Cell>, t: Textbook)
    ensures Export(cells, t).Some? <==> forall k :: 0 <= k < |cells| ==> CellDefined(cells[k], k, t, IsProblemSet(t))
  {
    ExportDefined(cells, Prefix(t), IsProblemSet(t), ExportState([], [], Some([]), t));
    AllDefinedMeaning(cells, t, IsProblemSet(t));
  }

  /** The text always ends with a line break, also after a problem set's first rule is dropped. */
  lemma ExportEndsWithNewline(cells: seq<Cell>, t: Textbook)
    requires Export(cells, t).Some?
    ensures EndsWith(Export(cells, t).value.text, "\n")
  {
    ExportOfFold(cells, t);
    var st := ExportFold(cells, Prefix(t), IsProblemSet(t), ExportState([], [], Some([]), t)).value;
    FinishEndsWithNewline(st, IsProblemSet(t));
  }

  /** Closing the loop's state gives a text that ends with a line break. */
  lemma FinishEndsWithNewline(st: ExportState, isProblemSet: bool)
    ensures EndsWith(Finish(st, isProblemSet).text, "\n")
  {
    var full := Concat(st.lines + ["\n"]);
    ConcatAppend(st.lines, "\n");
    assert full[|full| - 1] == '\n';
    if isProblemSet {
      var pat := "\n---\n\n>";
      match FindFrom(full, pat, 0)
      case None =>
      case Some(i) =>
        assert full[i..i + |pat|][|pat| - 1] == '>';
        var r := full[..i] + "\n\n>" + full[i + |pat|..];
        assert r[|r| - 1] == full[|full| - 1];
    }
  }

  /** Outside problem sets the text is the pieces joined, with one more line break. */
  lemma ExportText(cells: seq<Cell>, t: Textbook)
    requires Export(cells, t).Some? && !IsProblemSet(t)
    ensures var st := ExportFold(cells, Prefix(t), false, ExportState([], [], Some([]), t)).value;
      Export(cells, t).value.text == Concat(st.lines) + "\n"
  {
    var st := ExportFold(cells, Prefix(t), false, ExportState([], [], Some([]), t)).value;
    ConcatAppend(st.lines, "\n");
  }

  /** A code cell that is blank or tagged `sanity-check`, and a raw cell, add nothing. */
  lemma SkippedCellsAddNothing(cells: seq<Cell>, c: Cell, prefix: string, isProblemSet: bool, start: ExportState)
    requires c.kind == Raw || (c.kind == Code && SkippedCode(c))
    ensures ExportFold(cells + [c], prefix, isProblemSet, start) == ExportFold(cells, prefix, isProblemSet, start)
  {
    assert (cells + [c])[..|cells|] == cells;
  }

  // ---------------------------------------------------------------------------
  // The unbound `goals` name

  /**
   * As written, a notebook whose first cell is a markdown cell with a blank
   * fails: `goals` is read before any cell has assigned it.
   */
  lemma UnboundGoalsAsWritten(c: Cell, rest: seq<Cell>, t: Textbook)
    requires c.kind == Markdown && HasBlank(c.source)
    ensures ExportAsWritten([c] + rest, t).None?
  {
    var start := ExportState([], [], None, t);
    var cells := [c] + rest;
    FoldSnoc(cells, 0, Prefix(t), IsProblemSet(t), start);
    assert cells[..0] == [] && cells[0] == c;
    FailureOnPrefix(cells, 1, Prefix(t), IsProblemSet(t), start);
  }

  /** Two loop states that differ at most in `goals`, where the first may still be unbound. */
  predicate GoalsOnlyDiffer(a: ExportState, b: ExportState) {
    a.lines == b.lines && a.headings == b.headings && a.textbook == b.textbook
    && b.goals.Some? && (a.goals.Some? ==> a.goals == b.goals)
  }

  lemma MarkdownGoalsOnly(a: ExportState, b: ExportState, cell: Cell, count: nat, prefix: string, isProblemSet: bool)
    requires GoalsOnlyDiffer(a, b) && MarkdownStep(a, cell, count, prefix, isProblemSet).Some?
    ensures MarkdownStep(b, cell, count, prefix, isProblemSet).Some?
    ensures GoalsOnlyDiffer(MarkdownStep(a, cell, count, prefix, isProblemSet).value, MarkdownStep(b, cell, count, prefix, isProblemSet).value)
  {
  }

  lemma CodeGoalsOnly(a: ExportState, b: ExportState, cell: Cell, count: nat, prefix: string)
    requires GoalsOnlyDiffer(a, b) && CodeStep(a, cell, count, prefix).Some?
    ensures CodeStep(b, cell, count, prefix).Some?
    ensures GoalsOnlyDiffer(CodeStep(a, cell, count, prefix).value, CodeStep(b, cell, count, prefix).value)
  {
  }

  lemma {:induction false} FoldGoalsOnly(cells: seq<Cell>, prefix: string, isProblemSet: bool, a: ExportState, b: ExportState)
    requires GoalsOnlyDiffer(a, b) && ExportFold(cells, prefix, isProblemSet, a).Some?
    decreases |cells|
    ensures ExportFold(cells, prefix, isProblemSet, b).Some?
    ensures GoalsOnlyDiffer(ExportFold(cells, prefix, isProblemSet, a).value, ExportFold(cells, prefix, isProblemSet, b).value)
  {
    if cells != [] {
      var init, c, n := cells[..|cells| - 1], cells[|cells| - 1], |cells| - 1;
      FoldGoalsOnly(init, prefix, isProblemSet, a, b);
      var sa, sb := ExportFold(init, prefix, isProblemSet, a).value, ExportFold(init, prefix, isProblemSet, b).value;
      if c.kind == Markdown {
        MarkdownGoalsOnly(sa, sb, c, n, prefix, isProblemSet);
      } else if c.kind == Code {
        CodeGoalsOnly(sa, sb, c, n, prefix);
      }
    }
  }

  /** Binding `goals` before the loop changes nothing where the code as written does not fail. */
  lemma CorrectionConservative(cells: seq<Cell>, t: Textbook)
    requires ExportAsWritten(cells, t).Some?
    ensures Export(cells, t) == ExportAsWritten(cells, t)
  {
    FoldGoalsOnly(cells, Prefix(t), IsProblemSet(t), ExportState([], [], None, t), ExportState([], [], Some([]), t));
  }

  /** With `goals` bound before the loop, the same cell renders as soon as its markdown does. */
  lemma BlankCellCorrected(c: Cell, t: Textbook)
    requires c.kind == Markdown && HasBlank(c.source)
    ensures Export([c], t).Some? <==> Scanner.MarkdownCellOf(Scanner.Context(c, 0, t.section, IsProblemSet(t))).Some?
  {
    ExportFailsOnlyOnCells([c], t);
  }

  /** `Export` is the fold over the cells followed by `Finish`. */
  lemma ExportOfFold(cells: seq<Cell>, t: Textbook)
    ensures var f := ExportFold(cells, Prefix(t), IsProblemSet(t), ExportState([], [], Some([]), t));
      Export(cells, t) == if f.None? then None else Some(Finish(f.value, IsProblemSet(t)))
  {
  }

  // ---------------------------------------------------------------------------
  // The exporter, updating the resources in place

  /** The markdown branch of the loop body. */
  method ExportMarkdownCell(bag: ResourceBag, cell: Cell, count: nat, prefix: string, isProblemSet: bool,
                            lines: seq<string>, headings: seq<Scanner.HeadingEntry>, goals: seq<string>)
    returns (ok: bool, lines': seq<string>, headings': seq<Scanner.HeadingEntry>, goals': seq<string>)
    modifies bag
    ensures var r := MarkdownStep(ExportState(lines, headings, Some(goals), old(bag.Value())), cell, count, prefix, isProblemSet);
      ok == r.Some? && (ok ==> r.value == ExportState(lines', headings', Some(goals'), bag.Value()))
  {
    var id := prefix + NatToString(count);
    bag.HandleCellGlossary(cell);
    bag.HandleCellFormulas(cell);
    lines', headings', goals' := lines, headings, goals;
    var blanks := HasBlank(cell.source);
    if !blanks {
      goals' := bag.HandleCellGoals(id, cell);
      if goals' != [] {
        lines' := lines' + ["\n---\n> id: " + id, "\n> goals: " + Join(goals', " ") + "\n\n"];
      }
    } else {
      lines' := lines' + ["\n---\n> id: " + id + "\n\n"];
    }
    var md := Scanner.HandleMarkdownCell(Scanner.Context(cell, count, bag.section, isProblemSet));
    if md.None? {
      return false, lines', headings', goals';
    }
    lines' := lines' + [md.value.text];
    if blanks || goals' != [] {
      lines' := lines' + ["\n\n---\n"];
    }
    headings' := headings' + md.value.headings;
    ok := true;
  }

  /** The code branch of the loop body, for a cell that is not skipped. */
  method ExportCodeCell(bag: ResourceBag, cell: Cell, count: nat, prefix: string,
                        lines: seq<string>, headings: seq<Scanner.HeadingEntry>, goals: seq<string>)
    returns (ok: bool, lines': seq<string>, goals': seq<string>)
    requires !SkippedCode(cell)
    modifies bag
    ensures var r := CodeStep(ExportState(lines, headings, Some(goals), old(bag.Value())), cell, count, prefix);
      ok == r.Some? && (ok ==> r.value == ExportState(lines', headings, Some(goals'), bag.Value()))
  {
    var id := prefix + NatToString(count);
    lines', goals' := lines, goals;
    if !CodeCells.CodeCellDefined(cell, bag.includeOutput) {
      return false, lines', goals';
    }
    goals' := bag.HandleCellGoals(id, cell);
    if goals' != [] {
      lines' := lines' + ["\n---\n> id: " + id, "\n> goals: " + Join(goals', " ") + "\n\n"];
    }
    var text := CodeCells.HandleCodeCell(cell, bag.includeOutput);
    lines' := lines' + [text];
    ok := true;
  }

  /** The loop body: dispatches on the cell type; raw cells and skipped code cells change nothing. */
  method ExportCell(bag: ResourceBag, cell: Cell, count: nat, prefix: string, isProblemSet: bool,
                    lines: seq<string>, headings: seq<Scanner.HeadingEntry>, goals: seq<string>)
    returns (ok: bool, lines': seq<string>, headings': seq<Scanner.HeadingEntry>, goals': seq<string>)
    modifies bag
    ensures var r := CellStep(ExportState(lines, headings, Some(goals), old(bag.Value())), cell, count, prefix, isProblemSet);
      ok == r.Some? && (ok ==> r.value == ExportState(lines', headings', Some(goals'), bag.Value()))
  {
    ok, lines', headings', goals' := true, lines, headings, goals;
    if cell.kind == Markdown {
      ok, lines', headings', goals' := ExportMarkdownCell(bag, cell, count, prefix, isProblemSet, lines, headings, goals);
    } else if cell.kind == Code && !SkippedCode(cell) {
      ok, lines', goals' := ExportCodeCell(bag, cell, count, prefix, lines, headings, goals);
    }
  }

  /** One iteration of the cell loop: the fold advances by one cell, or the whole conversion fails. */
  method ExportNext(bag: ResourceBag, cells: seq<Cell>, count: nat, prefix: string, isProblemSet: bool, ghost start: ExportState,
                    lines: seq<string>, headings: seq<Scanner.HeadingEntry>, goals: seq<string>)
    returns (ok: bool, lines': seq<string>, headings': seq<Scanner.HeadingEntry>, goals': seq<string>)
    requires count < |cells|
    requires ExportFold(cells[..count], prefix, isProblemSet, start) == Some(ExportState(lines, headings, Some(goals), bag.Value()))
    modifies bag
    ensures ok ==> ExportFold(cells[..count + 1], prefix, isProblemSet, start) == Some(ExportState(lines', headings', Some(goals'), bag.Value()))
    ensures !ok ==> ExportFold(cells, prefix, isProblemSet, start).None?
  {
    FoldSnoc(cells, count, prefix, isProblemSet, start);
    ok, lines', headings', goals' := ExportCell(bag, cells[count], count, prefix, isProblemSet, lines, headings, goals);
    if !ok {
      FailureOnPrefix(cells, count + 1, prefix, isProblemSet, start);
    }
  }

  /**
   * `from_notebook_node` once the base exporter has produced the notebook
   * copy: renders every cell, gathers the resources into `bag` and returns
   * the markdown; `None` where the Python code raises.
   */
  method FromNotebookNode(cells: seq<Cell>, bag: ResourceBag) returns (r: Option<string>)
    modifies bag
    ensures r.Some? <==> Export(cells, old(bag.Value())).Some?
    ensures r.Some? ==> r.value == Export(cells, old(bag.Value())).value.text
    ensures r.Some? ==> bag.Value() == Export(cells, old(bag.Value())).value.textbook
  {
    ghost var t0 := bag.Value();
    ghost var start := ExportState([], [], Some([]), t0);
    var prefix := Prefix(bag.Value());
    var isProblemSet := IsProblemSet(bag.Value());
    var lines: seq<string> := [];
    var headings: seq<Scanner.HeadingEntry> := [];
    var goals: seq<string> := [];
    var count := 0;
    while count < |cells|
      invariant 0 <= count <= |cells|
      invariant ExportFold(cells[..count], prefix, isProblemSet, start) == Some(ExportState(lines, headings, Some(goals), bag.Value()))
    {
      var ok;
      ok, lines, headings, goals := ExportNext(bag, cells, count, prefix, isProblemSet, start, lines, headings, goals);
      if !ok {
        ExportOfFold(cells, t0);
        return None;
      }
      count := count + 1;
    }
    assert cells[..count] == cells;
    ExportOfFold(cells, t0);
    var full := FinishExport(bag, lines, headings, goals, isProblemSet);
    r := Some(full);
  }

  /** After the loop: stores the index, adds the final line break and, in a problem set, drops the first rule. */
  method FinishExport(bag: ResourceBag, lines: seq<string>, headings: seq<Scanner.HeadingEntry>, goals: seq<string>, isProblemSet: bool)
    returns (full: string)
    modifies bag
    ensures var e := Finish(ExportState(lines, headings, Some(goals), old(bag.Value())), isProblemSet);
      full == e.text && bag.Value() == e.textbook
  {
    if headings != [] {
      var _ := bag.HandleIndex(headings);
    }
    full := Concat(lines + ["\n"]);
    if isProblemSet {
      full := ReplaceFirst(full, "\n---\n\n>", "\n\n>");
    }
  }
}
