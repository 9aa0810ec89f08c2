/**
 * The markdown-cell scanner: splits a markdown cell into lines and rewrites
 * each line according to the block it is in (display math, code fence,
 * directive block) and the syntax it starts with.
 */
module Scanner {
  import opened Wrappers
  import opened Strings
  import opened Notebook
  import Inline
  import Converters
  import Headings

  // ---------------------------------------------------------------------------
  // `str.splitlines()`

  /** The characters `str.splitlines()` breaks at. */
  predicate IsLineBreak(c: char) {
    var n := c as int;
    10 <= n <= 13 || 28 <= n <= 30 || n == 0x85 || n == 0x2028 || n == 0x2029
  }

  /** The first line break at or after `i`, or the end of the text. */
  function BreakFrom(s: string, i: nat): (e: nat)
    requires i <= |s|
    decreases |s| - i
    ensures i <= e <= |s|
    ensures forall k :: i <= k < e ==> !IsLineBreak(s[k])
    ensures e < |s| ==> IsLineBreak(s[e])
  {
    if i == |s| || IsLineBreak(s[i]) then i else BreakFrom(s, i + 1)
  }

  /** `s.splitlines()`: `\r\n` is one break, and a final break opens no empty line. */
  function SplitLines(s: string): (lines: seq<string>)
    decreases |s|
    ensures forall j, k :: 0 <= j < |lines| && 0 <= k < |lines[j]| ==> !IsLineBreak(lines[j][k])
  {
    if s == [] then []
    else
      var e := BreakFrom(s, 0);
      if e == |s| then [s]
      else
        var next := if s[e] == '\r' && e + 1 < |s| && s[e + 1] == '\n' then e + 2 else e + 1;
        [s[..e]] + SplitLines(s[next..])
  }

  /** On text whose only breaks are line feeds and that does not end in one, `splitlines` is `split("\n")`. */
  lemma {:induction false} SplitLinesIsSplit(s: string)
    requires s != [] && s[|s| - 1] != '\n'
    requires forall k :: 0 <= k < |s| && IsLineBreak(s[k]) ==> s[k] == '\n'
    ensures SplitLines(s) == Split(s, '\n')
    decreases |s|
  {
    var e := BreakFrom(s, 0);
    assert '\n' !in s[..e];
    if e == |s| {
      SplitNoSeparator(s, '\n');
    } else {
      assert s[e] == '\n';
      var rest := s[e + 1..];
      assert s == s[..e] + ['\n'] + rest;
      SplitAfterSeparator(s[..e], rest, '\n');
      SplitLinesIsSplit(rest);
    }
  }

  // ---------------------------------------------------------------------------
  // The scan

  /** What `handle_markdown_cell` reads besides the lines: the cell, its number, the section and the problem-set flag. */
  datatype Context = Context(cell: Cell, cellNumber: nat, section: Option<string>, isProblemSet: bool)

  /** The flags carried from line to line, and the indentation of the open display-math block. */
  datatype ScanState = ScanState(inLatex: bool, inCode: bool, inBlock: bool, indent: string)

  /** A heading recorded for the table of contents: `(id, level, title)`. */
  datatype HeadingEntry = HeadingEntry(id: string, level: nat, title: string)

  /** The state, the emitted pieces and the headings after some lines. */
  datatype Scan = Scan(state: ScanState, pieces: seq<string>, headings: seq<HeadingEntry>)

  const Start := Scan(ScanState(false, false, false, ""), [], [])

  const DotsAndSpaces: set<char> := {' ', '.'}

  /** The rewrite of a line with no special syntax at its start. */
  function DefaultLine(line: string): string {
    ReplaceAll(Inline.InlineImagesOf(Inline.InlineCodeOf(Inline.InlineLatexOf(line))), "\\%", "\\\\%")
  }

  /** A line that closes display math: it ends in `$$` once trailing spaces and dots are removed. */
  predicate ClosesMath(line: string) {
    EndsWith(RStripChars(line, DotsAndSpaces), "$$")
  }

  /** A directive comment toggles the block flag: `:::` at the end closes, `:::` at the start opens. */
  function BlockAfter(l: string, inBlock: bool): bool {
    if EndsWith(Strip(l), ":::") then false
    else if StartsWith(Strip(l), ":::") then true
    else inBlock
  }

  /** Which part of the loop handles a line, given the flags carried so far. */
  datatype LineKind = MathBody | MathOpen | CodeBody | CodeOpen | Syntax

  function KindOf(st: ScanState, line: string): LineKind {
    if st.inLatex then MathBody
    else if StartsWith(LStrip(line), "$$") then MathOpen
    else if st.inCode then CodeBody
    else if StartsWith(LStrip(line), "```") then CodeOpen
    else Syntax
  }

  /** The fence text of a line inside display math: the line with a line feed, or nothing for an empty line. */
  function MathLine(prefix: string, l: string): string {
    if |l| > 0 then prefix + l + "\n" else l
  }

  /** A line inside display math: copied, or with `$$` removed and the fence closed. */
  function MathBodyStep(sc: Scan, line: string): Scan {
    var st := sc.state;
    if ClosesMath(line) then
      var l := ReplaceAll(line, "$$", "");
      Scan(st.(inLatex := false), sc.pieces + [MathLine("", l), st.indent + "```\n"], sc.headings)
    else
      Scan(st, sc.pieces + [line, "\n"], sc.headings)
  }

  /** A line opening display math: a `latex` fence at the indentation of the `$$`, closed again if the line ends in `$$`. */
  function MathOpenStep(sc: Scan, line: string): Scan {
    var st := sc.state;
    var indent := BeforeFirst(line, "$$");
    var l := AfterFirst(line, "$$");
    var open := indent + "```latex\n";
    if ClosesMath(l) then
      var body := ReplaceAll(l, "$$", "");
      Scan(st.(inLatex := false, indent := indent),
        sc.pieces + [open, MathLine(indent, body), indent + "```\n"], sc.headings)
    else
      Scan(st.(inLatex := true, indent := indent),
        sc.pieces + [open, MathLine(indent, l)], sc.headings)
  }

  /** A line inside a code fence: copied; a fence line closes the block. */
  function CodeBodyStep(sc: Scan, line: string): Scan {
    Scan(sc.state.(inCode := !StartsWith(LStrip(line), "```")), sc.pieces + [line + "\n"], sc.headings)
  }

  /** A fence line opening code: a bare fence gets the `code` language. */
  function CodeOpenStep(sc: Scan, line: string): Scan {
    var text := if EndsWith(RStrip(line), "```") then RStrip(line) + "code\n" else line + "\n";
    Scan(sc.state.(inCode := true), sc.pieces + [text], sc.headings)
  }

  /** A heading line: rewritten, and recorded unless inside a directive block. */
  function HeadingStep(ctx: Context, sc: Scan, count: nat, line: string): Scan
    requires Contains(line, " ")
  {
    var st := sc.state;
    var h := Headings.HandleHeading(line, st.inBlock, Headings.Suffix(ctx.cellNumber, count), ctx.section, ctx.isProblemSet);
    var headings := if st.inBlock then sc.headings else sc.headings + [HeadingEntry(h.id.value, h.level.value, h.title)];
    Scan(st, sc.pieces + [h.text], headings)
  }

  /** The syntax a line starts with, once leading whitespace is skipped; the first that applies wins. */
  datatype SyntaxKind = Comment | Hero | Vue | Image | Heading | Text

  function SyntaxKindOf(head: string): SyntaxKind {
    if StartsWith(head, "<!--") then Comment
    else if StartsWith(head, "![hero:") then Hero
    else if StartsWith(head, "![vue:") then Vue
    else if StartsWith(head, "![") then Image
    else if StartsWith(head, "#") then Heading
    else Text
  }

  /** Any other line, once its `<img>` attachments are resolved: dispatched on how it starts. */
  function SyntaxStep(ctx: Context, sc: Scan, count: nat, line: string): (r: Option<Scan>)
    ensures SyntaxKindOf(LStrip(line)) == Heading ==> (r.Some? <==> Contains(line, " "))
    ensures SyntaxKindOf(LStrip(line)) == Heading && Contains(line, " ") ==> r == Some(HeadingStep(ctx, sc, count, line))
    ensures r.Some? && (sc.state.inBlock || SyntaxKindOf(LStrip(line)) != Heading) ==> r.value.headings == sc.headings
  {
    var st := sc.state;
    match SyntaxKindOf(LStrip(line))
    case Comment =>
      var l := Converters.BlockComment(line);
      Some(Scan(st.(inBlock := BlockAfter(l, st.inBlock)), sc.pieces + [l], sc.headings))
    case Hero => Some(Scan(st, sc.pieces + [Converters.HeroImage(line)], sc.headings))
    case Vue => Some(Scan(st, sc.pieces + [Converters.VueComponent(line)], sc.headings))
    case Image =>
      if Converters.ImageDefined(line, Some(ctx.cell))
      then Some(Scan(st, sc.pieces + [Converters.HandleImages(line, Some(ctx.cell))], sc.headings))
      else None
    case Heading => if Contains(line, " ") then Some(HeadingStep(ctx, sc, count, line)) else None
    case Text => Some(Scan(st, sc.pieces + [DefaultLine(line), "\n"], sc.headings))
  }

  /**
   * One iteration of the loop over the lines of a markdown cell; `None` where
   * the source raises (an attachment or heading it cannot handle).
   */
  function Step(ctx: Context, sc: Scan, count: nat, line: string): (r: Option<Scan>)
  {
    match KindOf(sc.state, line)
    case MathBody => Some(MathBodyStep(sc, line))
    case MathOpen => Some(MathOpenStep(sc, line))
    case CodeBody => Some(CodeBodyStep(sc, line))
    case CodeOpen => Some(CodeOpenStep(sc, line))
    case Syntax =>
      if Converters.AttachmentsDefined(line, Some(ctx.cell))
      then SyntaxStep(ctx, sc, count, Converters.HandleAttachments(line, Some(ctx.cell)))
      else None
  }

  /** The loop over `lines`, as a fold from the first line; `count` is the line's index. */
  function ScanLines(ctx: Context, lines: seq<string>): (r: Option<Scan>)
    decreases |lines|
  {
    if lines == [] then Some(Start)
    else
      match ScanLines(ctx, lines[..|lines| - 1])
      case None => None
      case Some(sc) => Step(ctx, sc, |lines| - 1, lines[|lines| - 1])
  }

  /** What `handle_markdown_cell` returns besides the unchanged resources. */
  datatype MarkdownCell = MarkdownCell(text: string, headings: seq<HeadingEntry>)

  /** The specification of `handle_markdown_cell`. */
  function MarkdownCellOf(ctx: Context): Option<MarkdownCell> {
    match ScanLines(ctx, SplitLines(ctx.cell.source))
    case None => None
    case Some(sc) => Some(MarkdownCell(Concat(sc.pieces + ["\n"]), sc.headings))
  }

  /** `handle_markdown_cell`: rewrites the lines of a markdown cell one by one. */
  method HandleMarkdownCell(ctx: Context) returns (r: Option<MarkdownCell>)
    ensures r == MarkdownCellOf(ctx)
  {
    var lines := SplitLines(ctx.cell.source);
    var sc := Start;
    var i := 0;
    while i < |lines|
      invariant 0 <= i <= |lines|
      invariant ScanLines(ctx, lines[..i]) == Some(sc)
    {
      ScanSnoc(ctx, lines, i);
      var next := Step(ctx, sc, i, lines[i]);
      if next.None? {
        ScanFailureSticks(ctx, lines, i + 1);
        return None;
      }
      sc := next.value;
      i := i + 1;
    }
    assert lines[..i] == lines;
    r := Some(MarkdownCell(Concat(sc.pieces + ["\n"]), sc.headings));
  }

  /** The fold over one more line is one more step. */
  lemma ScanSnoc(ctx: Context, lines: seq<string>, i: nat)
    requires i < |lines|
    ensures ScanLines(ctx, lines[..i + 1])
         == if ScanLines(ctx, lines[..i]).None? then None else Step(ctx, ScanLines(ctx, lines[..i]).value, i, lines[i])
  {
    assert lines[..i + 1][..i] == lines[..i];
  }

  /** Once a line raises, the whole cell does. */
  lemma {:induction false} ScanFailureSticks(ctx: Context, lines: seq<string>, n: nat)
    requires n <= |lines| && ScanLines(ctx, lines[..n]).None?
    ensures ScanLines(ctx, lines).None?
    decreases |lines| - n
  {
    if n < |lines| {
      assert lines[..n + 1][..n] == lines[..n];
      ScanFailureSticks(ctx, lines, n + 1);
    } else {
      assert lines[..n] == lines;
    }
  }

  // ---------------------------------------------------------------------------
  // Properties

  /** The check at the opening of display math always holds: the text before `$$` is the line's leading whitespace. */
  lemma MathIndentIsLeadingSpace(line: string)
    requires StartsWith(LStrip(line), "$$")
    ensures BeforeFirst(line, "$$") == line[..|line| - |LStrip(line)|]
    ensures forall k :: 0 <= k < |BeforeFirst(line, "$$")| ==> IsSpace(BeforeFirst(line, "$$")[k])
  {
    var n := |line| - |LStrip(line)|;
    assert line[n..n + 2] == LStrip(line)[..2];
    assert StartsAt(line, n, "$$");
    forall j: nat | j < n ensures !StartsAt(line, j, "$$") {
      assert IsSpace(line[j]);
      assert line[j..j + 2][0] == line[j];
    }
  }

  /**
   * A display-math block of an opening `$$` line, one body line and a closing
   * line: a `latex` fence at the opening line's indentation, the body copied
   * with a line feed, the closing line without `$$`, and the fence closed at
   * the opening indentation. Afterwards math mode is off again and the code
   * and block flags and the headings are as before.
   */
  lemma MathBlockEmitted(ctx: Context, sc: Scan, count: nat, open: string, body: string, close: string)
    requires !sc.state.inLatex && StartsWith(LStrip(open), "$$") && !ClosesMath(AfterFirst(open, "$$"))
    requires !ClosesMath(body) && ClosesMath(close)
    ensures Step(ctx, sc, count, open).Some?
    ensures var s1 := Step(ctx, sc, count, open).value;
      Step(ctx, s1, count + 1, body).Some?
    ensures var s1 := Step(ctx, sc, count, open).value;
      var s2 := Step(ctx, s1, count + 1, body).value;
      Step(ctx, s2, count + 2, close).Some?
    ensures var s1 := Step(ctx, sc, count, open).value;
      var s2 := Step(ctx, s1, count + 1, body).value;
      var s3 := Step(ctx, s2, count + 2, close).value;
      var indent := BeforeFirst(open, "$$");
      && s3.pieces == sc.pieces + [indent + "```latex\n", MathLine(indent, AfterFirst(open, "$$")), body, "\n",
                                   MathLine("", ReplaceAll(close, "$$", "")), indent + "```\n"]
      && s3.state == sc.state.(indent := indent)
      && s3.headings == sc.headings
  {
    var indent := BeforeFirst(open, "$$");
    MathOpenEmitted(ctx, sc, count, open);
    var s1 := Step(ctx, sc, count, open).value;
    MathBodyCopied(ctx, s1, count + 1, body);
    var s2 := Step(ctx, s1, count + 1, body).value;
    MathCloseEmitted(ctx, s2, count + 2, close);
    var s3 := Step(ctx, s2, count + 2, close).value;
    assert s3.pieces == sc.pieces + [indent + "```latex\n", MathLine(indent, AfterFirst(open, "$$"))] + [body, "\n"]
                        + [MathLine("", ReplaceAll(close, "$$", "")), indent + "```\n"];
  }

  /** An opening `$$` line that does not close: a `latex` fence at its indentation, and math mode on. */
  lemma MathOpenEmitted(ctx: Context, sc: Scan, count: nat, line: string)
    requires !sc.state.inLatex && StartsWith(LStrip(line), "$$") && !ClosesMath(AfterFirst(line, "$$"))
    ensures var indent := BeforeFirst(line, "$$");
      Step(ctx, sc, count, line)
      == Some(Scan(sc.state.(inLatex := true, indent := indent),
                   sc.pieces + [indent + "```latex\n", MathLine(indent, AfterFirst(line, "$$"))], sc.headings))
  {
    assert KindOf(sc.state, line) == MathOpen;
  }

  /** Inside display math, a line that does not close it is copied, followed by a line feed. */
  lemma MathBodyCopied(ctx: Context, sc: Scan, count: nat, line: string)
    requires sc.state.inLatex && !ClosesMath(line)
    ensures Step(ctx, sc, count, line) == Some(Scan(sc.state, sc.pieces + [line, "\n"], sc.headings))
  {
  }

  /** The closing line: its text without `$$`, then the fence closed at the opening indentation; math mode off. */
  lemma MathCloseEmitted(ctx: Context, sc: Scan, count: nat, line: string)
    requires sc.state.inLatex && ClosesMath(line)
    ensures Step(ctx, sc, count, line)
      == Some(Scan(sc.state.(inLatex := false),
                   sc.pieces + [MathLine("", ReplaceAll(line, "$$", "")), sc.state.indent + "```\n"], sc.headings))
  {
  }

  /** `$$x$$` on one line opens and closes the fence in the same step. */
  lemma MathOneLine(ctx: Context, sc: Scan, count: nat, line: string)
    requires !sc.state.inLatex && StartsWith(LStrip(line), "$$") && ClosesMath(AfterFirst(line, "$$"))
    ensures var indent := BeforeFirst(line, "$$");
      Step(ctx, sc, count, line)
      == Some(Scan(sc.state.(indent := indent),
                   sc.pieces + [indent + "```latex\n", MathLine(indent, ReplaceAll(AfterFirst(line, "$$"), "$$", "")),
                                indent + "```\n"], sc.headings))
  {
    assert KindOf(sc.state, line) == MathOpen;
  }

  /** Inside a directive block, headings are rewritten but not recorded. */
  lemma BlockHeadingsNotRecorded(ctx: Context, sc: Scan, count: nat, line: string)
    requires sc.state.inBlock
    requires Step(ctx, sc, count, line).Some?
    ensures Step(ctx, sc, count, line).value.headings == sc.headings
  {
    if KindOf(sc.state, line) == Syntax {
      StepSyntax(ctx, sc, count, line);
    } else {
      StepBlockLine(ctx, sc, count, line);
    }
  }

  /**
   * Outside math, code and blocks, a line whose resolved text starts (after
   * leading whitespace) with `#` is a heading line: it succeeds exactly when
   * that text has a space, and then its level, id and title are recorded and
   * the heading builder's text is the one piece emitted.
   */
  lemma HeadingRecorded(ctx: Context, sc: Scan, count: nat, line: string)
    requires !sc.state.inLatex && !sc.state.inCode && !sc.state.inBlock
    requires !StartsWith(LStrip(line), "$$") && !StartsWith(LStrip(line), "```")
    requires Converters.AttachmentsDefined(line, Some(ctx.cell))
    requires StartsWith(LStrip(Converters.HandleAttachments(line, Some(ctx.cell))), "#")
    ensures Step(ctx, sc, count, line).Some? <==> Contains(Converters.HandleAttachments(line, Some(ctx.cell)), " ")
    ensures
      var a := Converters.HandleAttachments(line, Some(ctx.cell));
      Contains(a, " ") ==>
        var h := Headings.HandleHeading(a, false, Headings.Suffix(ctx.cellNumber, count), ctx.section, ctx.isProblemSet);
        && Step(ctx, sc, count, line).value.headings == sc.headings + [HeadingEntry(h.id.value, Headings.Level(a), h.title)]
        && Step(ctx, sc, count, line).value.pieces == sc.pieces + [h.text]
        && Step(ctx, sc, count, line).value.state == sc.state
  {
    var a := Converters.HandleAttachments(line, Some(ctx.cell));
    ResolvedLineStep(ctx, sc, count, line);
    HeadingKind(a);
    if Contains(a, " ") {
      HeadingStepRecords(ctx, sc, count, a);
    }
  }

  /** Outside math and code, a line that opens neither is handled by the syntax dispatch on its resolved text. */
  lemma ResolvedLineStep(ctx: Context, sc: Scan, count: nat, line: string)
    requires !sc.state.inLatex && !sc.state.inCode
    requires !StartsWith(LStrip(line), "$$") && !StartsWith(LStrip(line), "```")
    requires Converters.AttachmentsDefined(line, Some(ctx.cell))
    ensures Step(ctx, sc, count, line) == SyntaxStep(ctx, sc, count, Converters.HandleAttachments(line, Some(ctx.cell)))
  {
    assert KindOf(sc.state, line) == Syntax;
    StepSyntax(ctx, sc, count, line);
  }

  /** A heading line written at column 0, with a space and no `<img`, is recorded as it stands. */
  lemma UnindentedHeadingRecorded(ctx: Context, sc: Scan, count: nat, line: string)
    requires !sc.state.inLatex && !sc.state.inCode && !sc.state.inBlock
    requires !Contains(line, "<img") && StartsWith(line, "#") && Contains(line, " ")
    ensures Step(ctx, sc, count, line).Some?
    ensures
      var h := Headings.HandleHeading(line, false, Headings.Suffix(ctx.cellNumber, count), ctx.section, ctx.isProblemSet);
      && Step(ctx, sc, count, line).value.headings == sc.headings + [HeadingEntry(h.id.value, Headings.Level(line), h.title)]
      && Step(ctx, sc, count, line).value.pieces == sc.pieces + [h.text]
      && Step(ctx, sc, count, line).value.state == sc.state
  {
    assert line[0] == '#';
    assert LStrip(line) == line;
    FirstCharDiffers(line, "$$");
    FirstCharDiffers(line, "```");
    assert Converters.HtmlImgSource(line).None?;
    assert Converters.AttachmentsDefined(line, Some(ctx.cell));
    assert Converters.HandleAttachments(line, Some(ctx.cell)) == line;
    HeadingRecorded(ctx, sc, count, line);
  }

  /** A line that starts with `#` after its leading whitespace is dispatched as a heading. */
  lemma HeadingKind(line: string)
    requires StartsWith(LStrip(line), "#")
    ensures SyntaxKindOf(LStrip(line)) == Heading
  {
    var head := LStrip(line);
    assert head[0] == '#';
    FirstCharDiffers(head, "<!--");
    FirstCharDiffers(head, "![hero:");
    FirstCharDiffers(head, "![vue:");
    FirstCharDiffers(head, "![");
  }

  /** A line that reaches the syntax dispatch is handled once its attachments are resolved. */
  lemma StepSyntax(ctx: Context, sc: Scan, count: nat, line: string)
    requires KindOf(sc.state, line) == Syntax
    ensures Step(ctx, sc, count, line)
         == if Converters.AttachmentsDefined(line, Some(ctx.cell))
            then SyntaxStep(ctx, sc, count, Converters.HandleAttachments(line, Some(ctx.cell))) else None
  {
  }

  lemma HeadingStepRecords(ctx: Context, sc: Scan, count: nat, line: string)
    requires !sc.state.inBlock && Contains(line, " ")
    ensures
      var h := Headings.HandleHeading(line, false, Headings.Suffix(ctx.cellNumber, count), ctx.section, ctx.isProblemSet);
      && HeadingStep(ctx, sc, count, line).headings == sc.headings + [HeadingEntry(h.id.value, Headings.Level(line), h.title)]
      && HeadingStep(ctx, sc, count, line).pieces == sc.pieces + [h.text]
      && HeadingStep(ctx, sc, count, line).state == sc.state
  {
  }

  /** Lines inside display math or a code fence, and the lines opening them, never raise nor record a heading. */
  lemma StepBlockLine(ctx: Context, sc: Scan, count: nat, line: string)
    requires KindOf(sc.state, line) != Syntax
    ensures Step(ctx, sc, count, line).Some? && Step(ctx, sc, count, line).value.headings == sc.headings
  {
  }

  lemma SyntaxHeading(ctx: Context, sc: Scan, count: nat, line: string)
    requires StartsWith(LStrip(line), "#") && Contains(line, " ")
    ensures SyntaxStep(ctx, sc, count, line) == Some(HeadingStep(ctx, sc, count, line))
  {
    HeadingKind(line);
  }

  /** Inside a code fence, every line that does not open display math is copied verbatim. */
  lemma CodeLinesVerbatim(ctx: Context, sc: Scan, count: nat, line: string)
    requires !sc.state.inLatex && sc.state.inCode && !StartsWith(LStrip(line), "$$")
    ensures Step(ctx, sc, count, line).Some?
    ensures Step(ctx, sc, count, line).value.pieces == sc.pieces + [line + "\n"]
    ensures Step(ctx, sc, count, line).value.state.inCode <==> !StartsWith(LStrip(line), "```")
  {
  }

  /** A `$$` line opens display math even inside a code fence, which stays open around it. */
  lemma MathOpensInsideCode(ctx: Context, sc: Scan, count: nat, line: string)
    requires !sc.state.inLatex && sc.state.inCode && StartsWith(LStrip(line), "$$")
    requires !ClosesMath(AfterFirst(line, "$$"))
    ensures Step(ctx, sc, count, line).Some?
    ensures Step(ctx, sc, count, line).value.state.inLatex && Step(ctx, sc, count, line).value.state.inCode
  {
  }

  /**
   * Outside display math and code fences, a line that starts with none of the
   * recognised syntax once its attachments are resolved is emitted through the
   * inline rewrites, followed by a line feed.
   */
  lemma DefaultLineEmitted(ctx: Context, sc: Scan, count: nat, line: string)
    requires !sc.state.inLatex && !sc.state.inCode
    requires !StartsWith(LStrip(line), "$$") && !StartsWith(LStrip(line), "```")
    requires Converters.AttachmentsDefined(line, Some(ctx.cell))
    requires SyntaxKindOf(LStrip(Converters.HandleAttachments(line, Some(ctx.cell)))) == Text
    ensures Step(ctx, sc, count, line)
         == Some(Scan(sc.state, sc.pieces + [DefaultLine(Converters.HandleAttachments(line, Some(ctx.cell))), "\n"], sc.headings))
  {
    assert KindOf(sc.state, line) == Syntax;
    StepSyntax(ctx, sc, count, line);
  }

  /** A line with none of the converter's syntax passes through unchanged. */
  lemma PlainLineUnchanged(ctx: Context, sc: Scan, count: nat, line: string)
    requires !sc.state.inLatex && !sc.state.inCode
    requires PlainLine(line)
    ensures Step(ctx, sc, count, line) == Some(Scan(sc.state, sc.pieces + [line, "\n"], sc.headings))
  {
    var head := LStrip(line);
    assert head == [] || head[0] in line;
    AbsentFirstNotContained(line, "<img");
    assert Converters.HandleAttachments(line, Some(ctx.cell)) == line;
    assert SyntaxKindOf(head) == Text;
    assert !StartsWith(head, "$$") && !StartsWith(head, "```");
    DefaultLineEmitted(ctx, sc, count, line);
    PlainDefaultLine(line);
  }

  lemma PlainDefaultLine(line: string)
    requires '$' !in line && '`' !in line && '!' !in line && '\\' !in line
    ensures DefaultLine(line) == line
  {
    assert Inline.InlineLatexOf(line) == line;
    assert Inline.InlineCodeOf(line) == line;
    AbsentFirstNotContained(line, "![");
    assert Inline.InlineImagesOf(line) == line;
    AbsentFirstNotContained(line, "\\%");
    ReplaceAllAbsent(line, "\\%", "\\\\%");
  }

  /** A line with none of the converter's syntax characters. */
  predicate PlainLine(line: string) {
    '$' !in line && '`' !in line && '<' !in line && '!' !in line && '#' !in line && '\\' !in line
  }

  /** Every line followed by a line feed. */
  function Terminated(lines: seq<string>): string
    decreases |lines|
  {
    if lines == [] then [] else Terminated(lines[..|lines| - 1]) + lines[|lines| - 1] + "\n"
  }

  /** Plain lines are copied, each with its line feed, and record no heading. */
  lemma {:induction false} PlainLinesScan(ctx: Context, lines: seq<string>)
    requires forall k :: 0 <= k < |lines| ==> PlainLine(lines[k])
    ensures ScanLines(ctx, lines).Some?
    ensures ScanLines(ctx, lines).value.state == Start.state
    ensures ScanLines(ctx, lines).value.headings == []
    ensures Concat(ScanLines(ctx, lines).value.pieces) == Terminated(lines)
    decreases |lines|
  {
    if lines != [] {
      var init, last := lines[..|lines| - 1], lines[|lines| - 1];
      PlainLinesScan(ctx, init);
      var sc := ScanLines(ctx, init).value;
      PlainLineUnchanged(ctx, sc, |init|, last);
      ConcatAppend(sc.pieces, last);
      ConcatAppend(sc.pieces + [last], "\n");
      assert sc.pieces + [last, "\n"] == sc.pieces + [last] + ["\n"];
    }
  }

  /** A markdown cell of plain lines comes out as its lines, each ended by a line feed, and one more line feed. */
  lemma PlainCellText(ctx: Context)
    requires forall k :: 0 <= k < |SplitLines(ctx.cell.source)| ==> PlainLine(SplitLines(ctx.cell.source)[k])
    ensures MarkdownCellOf(ctx) == Some(MarkdownCell(Terminated(SplitLines(ctx.cell.source)) + "\n", []))
  {
    var lines := SplitLines(ctx.cell.source);
    PlainLinesScan(ctx, lines);
    ConcatAppend(ScanLines(ctx, lines).value.pieces, "\n");
  }

  /** The text of a converted markdown cell always ends with a line feed. */
  lemma MarkdownCellEndsWithNewline(ctx: Context)
    requires MarkdownCellOf(ctx).Some?
    ensures EndsWith(MarkdownCellOf(ctx).value.text, "\n")
  {
    var sc := ScanLines(ctx, SplitLines(ctx.cell.source)).value;
    ConcatAppend(sc.pieces, "\n");
  }
}
