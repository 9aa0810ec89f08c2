/**
 * The code-cell renderer: the source as an executable `pre` block inside a
 * `q-code-exercise` directive, optionally followed by the cell's outputs.
 */
module CodeCells {
  import opened Wrappers
  import opened Strings
  import opened Notebook

  const Indent := "    "
  const Indent2 := "        "
  const Indent3 := "            "

  // ---------------------------------------------------------------------------
  // `handle_code_cell_output`

  /** The first key at or after `from` that contains `image/` anywhere. */
  function FirstImageLike(b: MimeBundle, from: nat): (r: Option<nat>)
    decreases |b| - from
    ensures r.Some? ==> from <= r.value < |b| && Contains(b[r.value].0, "image/")
    ensures r.Some? ==> forall k :: from <= k < r.value ==> !Contains(b[k].0, "image/")
    ensures r.None? ==> forall k :: from <= k < |b| ==> !Contains(b[k].0, "image/")
  {
    if from >= |b| then None
    else if Contains(b[from].0, "image/") then Some(from)
    else FirstImageLike(b, from + 1)
  }

  /** A plain-text rendering: a `pre` block whose lines are prefixed with `| `. */
  function PlainBlock(v: string): string {
    "pre \n" + Indent + "| " + ReplaceAll(v, "\n", "\n" + Indent + "| ")
  }

  /** The source looks up the exact `image/svg+xml` key once any key mentions it. */
  predicate OutputDefined(o: Output) {
    o.data.Some? && FirstImageLike(o.data.value, 0).Some?
    && Contains(o.data.value[FirstImageLike(o.data.value, 0).value].0, "image/svg+xml")
    ==> HasKey(o.data.value, "image/svg+xml")
  }

  /** `handle_code_cell_output`: the text shown for one output, by mime-type priority. */
  function OutputText(o: Output): (r: Option<string>)
    requires OutputDefined(o)
    ensures o.data.Some? && FirstImageLike(o.data.value, 0).Some? ==> r.Some?
    ensures o.data.Some? && FirstImageLike(o.data.value, 0).Some?
            && Contains(o.data.value[FirstImageLike(o.data.value, 0).value].0, "image/svg+xml")
            ==> r == Lookup(o.data.value, "image/svg+xml")
    ensures (o.data.Some? && FirstImageLike(o.data.value, 0).None? && HasKey(o.data.value, "text/html"))
            ==> r == Lookup(o.data.value, "text/html")
    ensures (o.data.Some? && FirstImageLike(o.data.value, 0).None? && !HasKey(o.data.value, "text/html")
             && HasKey(o.data.value, "text/latex"))
            ==> r == Some(ReplaceAll(Strip(Lookup(o.data.value, "text/latex").value), "$$", "")) && !Contains(r.value, "$$")
    ensures (o.data.Some? && FirstImageLike(o.data.value, 0).None? && !HasKey(o.data.value, "text/html")
             && !HasKey(o.data.value, "text/latex") && HasKey(o.data.value, "text/plain"))
            ==> r == Some(PlainBlock(Lookup(o.data.value, "text/plain").value))
    ensures (o.data.Some? && FirstImageLike(o.data.value, 0).None? && !HasKey(o.data.value, "text/html")
             && !HasKey(o.data.value, "text/latex") && !HasKey(o.data.value, "text/plain")) ==> r.None?
    ensures o.data.None? && o.text.Some? ==> r == Some(PlainBlock(o.text.value))
    ensures o.data.None? && o.text.None? ==> r.None?
  {
    if o.data.Some? then
      var d := o.data.value;
      match FirstImageLike(d, 0)
      case Some(k) =>
        if Contains(d[k].0, "image/svg+xml") then Lookup(d, "image/svg+xml")
        else Some("<img src=\"data:" + d[k].0 + ";base64," + d[k].1 + "\"/>")
      case None =>
        if HasKey(d, "text/html") then Lookup(d, "text/html")
        else if HasKey(d, "text/latex") then
          RemovePairsLeavesNone(Strip(Lookup(d, "text/latex").value), '$');
          Some(ReplaceAll(Strip(Lookup(d, "text/latex").value), "$$", ""))
        else if HasKey(d, "text/plain") then Some(PlainBlock(Lookup(d, "text/plain").value))
        else None
    else if o.text.Some? then Some(PlainBlock(o.text.value))
    else None
  }

  /** An image key wins over every text rendering: the first key naming an image decides the output. */
  lemma ImageWins(o: Output)
    requires o.data.Some? && OutputDefined(o)
    requires FirstImageLike(o.data.value, 0).Some?
    requires !Contains(o.data.value[FirstImageLike(o.data.value, 0).value].0, "image/svg+xml")
    ensures
      var e := o.data.value[FirstImageLike(o.data.value, 0).value];
      OutputText(o) == Some("<img src=\"data:" + e.0 + ";base64," + e.1 + "\"/>")
  {
  }

  /** The plain-text rendering keeps the text: removing the `| ` prefixes gives it back. */
  lemma PlainBlockRoundTrip(v: string)
    ensures StartsWith(PlainBlock(v), "pre \n" + Indent + "| ")
    ensures ReplaceAll(PlainBlock(v)[|"pre \n" + Indent + "| "|..], "\n" + Indent + "| ", "\n") == v
  {
    var head := "pre \n" + Indent + "| ";
    var p := Indent + "| ";
    assert "\n" + Indent + "| " == "\n" + p;
    var body := ReplaceAll(v, "\n", "\n" + p);
    assert PlainBlock(v) == head + body;
    assert (head + body)[..|head|] == head;
    assert (head + body)[|head|..] == body;
    IndentRoundTrip(v, p);
  }

  // ---------------------------------------------------------------------------
  // `handle_grader_metadata`

  /** The checking attributes: the import/function pair wins over the id/answer pair. */
  function GraderAttr(md: Metadata): (r: Option<string>)
    ensures md.graderImport.Some? && md.graderFunction.Some? ==>
      r == Some("grader-import=\"" + md.graderImport.value + "\" grader-function=\"" + md.graderFunction.value + "\"")
    ensures !(md.graderImport.Some? && md.graderFunction.Some?) && md.graderId.Some? && md.graderAnswer.Some? ==>
      r == Some("grader-id=\"" + md.graderId.value + "\" grader-answer=\"" + md.graderAnswer.value + "\"")
    ensures r.None? <==> !(md.graderImport.Some? && md.graderFunction.Some?) && !(md.graderId.Some? && md.graderAnswer.Some?)
  {
    if md.graderImport.Some? && md.graderFunction.Some? then
      Some("grader-import=\"" + md.graderImport.value + "\" grader-function=\"" + md.graderFunction.value + "\"")
    else if md.graderId.Some? && md.graderAnswer.Some? then
      Some("grader-id=\"" + md.graderId.value + "\" grader-answer=\"" + md.graderAnswer.value + "\"")
    else None
  }

  /** The source reads the first goal once grader attributes and a goals list are present. */
  predicate GraderDefined(md: Metadata) {
    GraderAttr(md).Some? && md.goals.Some? ==> |md.goals.value| > 0
  }

  /** `handle_grader_metadata`. */
  function GraderWidget(md: Metadata): (r: string)
    requires GraderDefined(md)
    ensures StartsWith(r, "q-code-exercise(") && EndsWith(r, ")")
    ensures GraderAttr(md).None? ==> r == "q-code-exercise()"
    ensures GraderAttr(md).Some? && md.goals.None? ==> r == "q-code-exercise(" + GraderAttr(md).value + ")"
    ensures GraderAttr(md).Some? && md.goals.Some? ==>
      r == "q-code-exercise(" + GraderAttr(md).value + " goal=\"" + md.goals.value[0].id + "\")"
  {
    var attr :=
      match GraderAttr(md)
      case None => ""
      case Some(a) => if md.goals.Some? then a + " goal=\"" + md.goals.value[0].id + "\"" else a;
    var r := "q-code-exercise(" + attr + ")";
    assert r[..|"q-code-exercise("|] == "q-code-exercise(";
    r
  }

  // ---------------------------------------------------------------------------
  // Source escaping

  /** Whether `[\^]?\s*# pylint:` matches at `i`, and where the rest of its line ends. */
  function PylintMatchEnd(s: string, i: nat): (r: Option<nat>)
    requires i <= |s|
    ensures r.Some? ==> i < r.value <= |s|
  {
    var j := if i < |s| && s[i] == '^' then i + 1 else i;
    var k := SkipSpace(s, j);
    if StartsAt(s, k, "# pylint:") then Some(LineEnd(s, k + 9)) else None
  }

  /** `re.sub(r'[\^]?\s*# pylint:.*', '', s[i..])`: every leftmost match, with the whitespace before it, deleted. */
  function StripPylintFrom(s: string, i: nat): (r: string)
    requires i <= |s|
    decreases |s| - i
    ensures |r| <= |s| - i
    ensures forall c :: c in r ==> c in s[i..]
  {
    if i == |s| then []
    else
      match PylintMatchEnd(s, i)
      case Some(e) =>
        var r := StripPylintFrom(s, e);
        assert forall c :: c in s[e..] ==> c in s[i..] by {
          assert s[e..] == s[i..][e - i..];
        }
        r
      case None =>
        var r := StripPylintFrom(s, i + 1);
        assert s[i..] == [s[i]] + s[i + 1..];
        [s[i]] + r
  }

  /** `handle_code_cell`'s escaping: indents continuation lines, escapes `<`, splits `[[`/`]]`, drops pylint comments. */
  function FormatSource(source: string): (r: string)
    ensures '<' !in r
  {
    var indented := ReplaceAll(source, "\n", "\n      ");
    var escaped := ReplaceAll(indented, "<", "&lt;");
    ReplaceAllRemovesChar(indented, '<', "&lt;");
    var spacedOpen := ReplaceAll(escaped, "[[", "[ [");
    ReplaceAllKeepsAbsent('<', escaped, "[[", "[ [");
    var spacedClose := ReplaceAll(spacedOpen, "]]", "] ]");
    ReplaceAllKeepsAbsent('<', spacedOpen, "]]", "] ]");
    StripPylintFrom(spacedClose, 0)
  }

  /** Text without a pylint marker is left alone by the comment removal. */
  lemma {:induction false} NoPylintUnchanged(s: string, i: nat)
    requires i <= |s| && !Contains(s, "# pylint:")
    ensures StripPylintFrom(s, i) == s[i..]
    decreases |s| - i
  {
    if i < |s| {
      var j := if s[i] == '^' then i + 1 else i;
      var k := SkipSpace(s, j);
      assert !StartsAt(s, k, "# pylint:");
      NoPylintUnchanged(s, i + 1);
      assert s[i..] == [s[i]] + s[i + 1..];
    }
  }

  // ---------------------------------------------------------------------------
  // `handle_code_cell`

  /** The cell's own `include_output`, else the notebook-wide default. */
  function IncludeOutput(md: Metadata, fallback: Option<bool>): Option<bool> {
    if md.includeOutput.Some? then md.includeOutput else fallback
  }

  /** Outputs are shown unless `include_output` is `False`, and only if there are any. */
  predicate ShowsOutputs(cell: Cell, fallback: Option<bool>) {
    IncludeOutput(cell.metadata, fallback) != Some(false) && |cell.outputs| > 0
  }

  predicate CodeCellDefined(cell: Cell, fallback: Option<bool>) {
    && GraderDefined(cell.metadata)
    && (ShowsOutputs(cell, fallback) ==> forall k :: 0 <= k < |cell.outputs| ==> OutputDefined(cell.outputs[k]))
  }

  /** The block for an output text: `pre` text, a `latex` fence or a `div`, each indented and followed by a blank line. */
  function Framed(out: string, isLatex: bool): (r: Option<string>)
    ensures r.Some? ==> StartsWith(r.value, Indent2) && EndsWith(r.value, "\n\n")
  {
    var r :=
      if StartsWith(out, "pre") then Some(Indent2 + ReplaceAll(out, "\n", "\n" + Indent2) + "\n\n")
      else if isLatex then
        Some(Indent2 + "div.md.\n" + Indent3 + "```latex\n" + Indent3 + Strip(ReplaceAll(out, "\n", "\n" + Indent3))
             + "\n" + Indent3 + "```\n\n")
      else if |out| > 0 then Some(Indent2 + "div.\n" + Indent3 + ReplaceAll(out, "\n", "\n" + Indent3) + "\n\n")
      else None;
    assert r.Some? ==> r.value[..|Indent2|] == Indent2;
    r
  }

  /** The block one output contributes, if any. */
  function OutputPiece(o: Output): (r: Option<string>)
    requires OutputDefined(o)
    ensures OutputText(o).None? || OutputText(o) == Some("") ==>
      (r.Some? <==> o.data.Some? && HasKey(o.data.value, "text/latex"))
    ensures r.Some? ==> StartsWith(r.value, Indent2) && EndsWith(r.value, "\n\n")
  {
    Framed(OutputText(o).GetOr(""), o.data.Some? && HasKey(o.data.value, "text/latex"))
  }

  /** Undoes the framing of an output block: drops `head` and the final blank line, and takes the indentation `p` out of every line. */
  function Unframe(block: string, head: string, p: string): string {
    if |head| + 2 <= |block| then ReplaceAll(block[|head|..|block| - 2], "\n" + p, "\n") else block
  }

  /** A framed block gives back the text it frames. */
  lemma UnframeFramed(head: string, v: string, p: string)
    requires '\n' !in p
    ensures Unframe(head + ReplaceAll(v, "\n", "\n" + p) + "\n\n", head, p) == v
  {
    var x := ReplaceAll(v, "\n", "\n" + p);
    var b := head + x + "\n\n";
    assert b[|head|..|b| - 2] == x;
    IndentRoundTrip(v, p);
  }

  /**
   * A block shows its text: a `pre` text and any other non-empty text come back
   * once the block is unframed, and a LaTeX text is fenced as `latex`,
   * re-indented and stripped. An empty text that is not LaTeX gives no block.
   */
  lemma FramedContent(out: string, isLatex: bool)
    ensures StartsWith(out, "pre") ==>
      && Framed(out, isLatex).Some?
      && StartsWith(Framed(out, isLatex).value, Indent2 + "pre")
      && Unframe(Framed(out, isLatex).value, Indent2, Indent2) == out
    ensures !StartsWith(out, "pre") && isLatex ==>
      Framed(out, isLatex) == Some(Indent2 + "div.md.\n" + Indent3 + "```latex\n" + Indent3
                                   + Strip(ReplaceAll(out, "\n", "\n" + Indent3)) + "\n" + Indent3 + "```\n\n")
    ensures !StartsWith(out, "pre") && !isLatex && out != "" ==>
      && Framed(out, isLatex).Some?
      && StartsWith(Framed(out, isLatex).value, Indent2 + "div.\n" + Indent3)
      && Unframe(Framed(out, isLatex).value, Indent2 + "div.\n" + Indent3, Indent3) == out
    ensures !StartsWith(out, "pre") && !isLatex && out == "" ==> Framed(out, isLatex).None?
  {
    if StartsWith(out, "pre") {
      var body := ReplaceAll(out, "\n", "\n" + Indent2);
      var b := Indent2 + body + "\n\n";
      assert Framed(out, isLatex) == Some(b);
      UnframeFramed(Indent2, out, Indent2);
      ReplaceAllKeepsPrefix(out, "pre", "\n", "\n" + Indent2);
      assert b[..|Indent2| + 3] == Indent2 + body[..3];
    } else if !isLatex && out != "" {
      var head := Indent2 + "div.\n" + Indent3;
      var b := head + ReplaceAll(out, "\n", "\n" + Indent3) + "\n\n";
      assert Framed(out, isLatex) == Some(b);
      UnframeFramed(head, out, Indent3);
      assert b[..|head|] == head;
    }
  }

  /** The block of an output shows the output's text, as `FramedContent` describes. */
  lemma OutputPieceContent(o: Output)
    requires OutputDefined(o)
    ensures OutputPiece(o) == Framed(OutputText(o).GetOr(""), o.data.Some? && HasKey(o.data.value, "text/latex"))
    ensures OutputText(o).Some? && StartsWith(OutputText(o).value, "pre") ==>
      OutputPiece(o).Some? && Unframe(OutputPiece(o).value, Indent2, Indent2) == OutputText(o).value
    ensures OutputText(o).Some? && !StartsWith(OutputText(o).value, "pre") && OutputText(o).value != ""
            && !(o.data.Some? && HasKey(o.data.value, "text/latex")) ==>
      OutputPiece(o).Some? && Unframe(OutputPiece(o).value, Indent2 + "div.\n" + Indent3, Indent3) == OutputText(o).value
  {
    FramedContent(OutputText(o).GetOr(""), o.data.Some? && HasKey(o.data.value, "text/latex"));
  }

  /** The blocks of the outputs, in order, skipping outputs that contribute nothing. */
  function OutputPieces(outputs: seq<Output>): seq<string>
    requires forall k :: 0 <= k < |outputs| ==> OutputDefined(outputs[k])
    decreases |outputs|
  {
    if outputs == [] then []
    else
      var init, last := outputs[..|outputs| - 1], outputs[|outputs| - 1];
      OutputPieces(init) + (match OutputPiece(last) case Some(p) => [p] case None => [])
  }

  /** The directive header and the escaped source. */
  function CodeHeader(cell: Cell): seq<string>
    requires GraderDefined(cell.metadata)
  {
    ["\n::: " + GraderWidget(cell.metadata) + "\n", "    pre.\n      ", FormatSource(cell.source), "\n\n"]
  }

  /** What `handle_code_cell` appends to `code_lines`, in order. */
  function CodeCellPieces(cell: Cell, fallback: Option<bool>): seq<string>
    requires CodeCellDefined(cell, fallback)
  {
    var outputs := if ShowsOutputs(cell, fallback) then ["\n    output\n"] + OutputPieces(cell.outputs) else [];
    CodeHeader(cell) + outputs + [":::\n"]
  }

  /** The specification of `handle_code_cell`. */
  function CodeCellOf(cell: Cell, fallback: Option<bool>): string
    requires CodeCellDefined(cell, fallback)
  {
    Concat(CodeCellPieces(cell, fallback))
  }

  /** The loop over the outputs: each output's block, in order. */
  method OutputBlocks(outputs: seq<Output>) returns (pieces: seq<string>)
    requires forall k :: 0 <= k < |outputs| ==> OutputDefined(outputs[k])
    ensures pieces == OutputPieces(outputs)
  {
    pieces := [];
    var i := 0;
    while i < |outputs|
      invariant 0 <= i <= |outputs|
      invariant pieces == OutputPieces(outputs[..i])
    {
      OutputPiecesStep(outputs, i);
      var piece := OutputPiece(outputs[i]);
      if piece.Some? {
        pieces := pieces + [piece.value];
      }
      i := i + 1;
    }
    assert outputs[..i] == outputs;
  }

  /** `handle_code_cell`: the header, then each output's block, then the closing `:::`. */
  method HandleCodeCell(cell: Cell, fallback: Option<bool>) returns (text: string)
    requires CodeCellDefined(cell, fallback)
    ensures text == CodeCellOf(cell, fallback)
  {
    var outputs: seq<string> := [];
    if ShowsOutputs(cell, fallback) {
      var blocks := OutputBlocks(cell.outputs);
      outputs := ["\n    output\n"] + blocks;
    }
    var lines := CodeHeader(cell) + outputs + [":::\n"];
    text := Concat(lines);
  }

  lemma OutputPiecesStep(outputs: seq<Output>, i: nat)
    requires i < |outputs| && forall k :: 0 <= k < |outputs| ==> OutputDefined(outputs[k])
    ensures OutputPieces(outputs[..i + 1])
         == OutputPieces(outputs[..i]) + (match OutputPiece(outputs[i]) case Some(p) => [p] case None => [])
  {
    assert outputs[..i + 1][..i] == outputs[..i];
  }

  // ---------------------------------------------------------------------------
  // Properties

  /** A rendered code cell opens a `q-code-exercise` directive and closes it. */
  lemma CodeCellFrame(cell: Cell, fallback: Option<bool>)
    requires CodeCellDefined(cell, fallback)
    ensures StartsWith(CodeCellOf(cell, fallback), "\n::: q-code-exercise(")
    ensures EndsWith(CodeCellOf(cell, fallback), ":::\n")
  {
    var header := CodeHeader(cell);
    var outs := if ShowsOutputs(cell, fallback) then ["\n    output\n"] + OutputPieces(cell.outputs) else [];
    var parts := header + outs + [":::\n"];
    assert parts == CodeCellPieces(cell, fallback);
    var first := "\n::: " + GraderWidget(cell.metadata) + "\n";
    assert parts[0] == header[0] == first;
    assert parts[|parts| - 1] == ":::\n";
    ConcatFirstLast(parts);
    HeaderOpens(GraderWidget(cell.metadata));
    StartsWithTrans(Concat(parts), first, "\n::: q-code-exercise(");
  }

  lemma HeaderOpens(widget: string)
    requires StartsWith(widget, "q-code-exercise(")
    ensures StartsWith("\n::: " + widget + "\n", "\n::: q-code-exercise(")
  {
    var first := "\n::: " + widget + "\n";
    assert first[..|"\n::: q-code-exercise("|] == "\n::: " + widget[..|"q-code-exercise("|];
  }

  /** A cell's own `include_output` decides, whatever the notebook default says. */
  lemma CellSettingWins(cell: Cell, f1: Option<bool>, f2: Option<bool>)
    requires cell.metadata.includeOutput.Some?
    requires CodeCellDefined(cell, f1)
    ensures CodeCellDefined(cell, f2) && CodeCellOf(cell, f1) == CodeCellOf(cell, f2)
  {
  }

  /** With `include_output` off, or without outputs, only the header and the closing line are emitted. */
  lemma HiddenOutputs(cell: Cell, fallback: Option<bool>)
    requires CodeCellDefined(cell, fallback) && !ShowsOutputs(cell, fallback)
    ensures CodeCellOf(cell, fallback) == Concat(CodeHeader(cell)) + ":::\n"
  {
    assert CodeCellPieces(cell, fallback) == CodeHeader(cell) + [":::\n"];
    ConcatAppend(CodeHeader(cell), ":::\n");
  }

  /** The notebook default applies to a cell without its own setting. */
  lemma DefaultHides(cell: Cell)
    requires cell.metadata.includeOutput.None? && GraderDefined(cell.metadata)
    ensures !ShowsOutputs(cell, Some(false)) && CodeCellDefined(cell, Some(false))
    ensures CodeCellOf(cell, Some(false)) == Concat(CodeHeader(cell)) + ":::\n"
  {
    HiddenOutputs(cell, Some(false));
  }
}
