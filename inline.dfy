/**
 * The three line-local rewrites applied to every plain line: escaping braces
 * inside inline math, tagging inline code spans, and turning inline markdown
 * images into `<img>` tags.
 */
module Inline {
  import opened Wrappers
  import opened Strings

  // ---------------------------------------------------------------------------
  // Inline math

  /** Doubles the backslash of every `\{` and then of every `\}`. */
  function EscapeBraces(s: string): string {
    ReplaceAll(ReplaceAll(s, "\\{", "\\\\{"), "\\}", "\\\\}")
  }

  lemma EscapeBracesDollarFree(s: string)
    requires '$' !in s
    ensures '$' !in EscapeBraces(s)
  {
    ReplaceAllKeepsAbsent('$', s, "\\{", "\\\\{");
    ReplaceAllKeepsAbsent('$', ReplaceAll(s, "\\{", "\\\\{"), "\\}", "\\\\}");
  }

  /** The segments with every odd-numbered one (the text between a pair of `$`) escaped. */
  function EscapeOdd(parts: seq<string>): seq<string> {
    seq(|parts|, k requires 0 <= k < |parts| => if k % 2 == 1 then EscapeBraces(parts[k]) else parts[k])
  }

  /** The specification of the inline-math rewrite. */
  function InlineLatexOf(line: string): (r: string)
    ensures '$' !in line ==> r == line
  {
    if '$' !in line then line else Join(EscapeOdd(Split(line, '$')), "$")
  }

  /** Appends every segment and a `$`, escaping on alternate segments, then drops the final `$`. */
  method InlineLatex(line: string) returns (r: string)
    ensures r == InlineLatexOf(line)
  {
    if '$' !in line {
      return line;
    }
    var parts := Split(line, '$');
    ghost var escaped := EscapeOdd(parts);
    var newline := "";
    var inLatex := false;
    var i := 0;
    while i < |parts|
      invariant 0 <= i <= |parts|
      invariant inLatex == (i % 2 == 1)
      invariant i == 0 ==> newline == ""
      invariant i > 0 ==> newline == Join(escaped[..i], "$") + "$"
    {
      var text := parts[i];
      if inLatex {
        text := ReplaceAll(text, "\\{", "\\\\{");
        text := ReplaceAll(text, "\\}", "\\\\}");
      }
      assert text == escaped[i];
      if i > 0 {
        JoinAppend(escaped[..i], text, "$");
      }
      assert escaped[..i + 1] == escaped[..i] + [text];
      newline := newline + text + "$";
      inLatex := !inLatex;
      i := i + 1;
    }
    assert escaped[..i] == escaped;
    r := newline[..|newline| - 1];
  }

  /** Splitting the result on `$` gives the input's segments, odd ones escaped and even ones untouched. */
  lemma InlineLatexSegments(line: string)
    requires '$' in line
    ensures Split(InlineLatexOf(line), '$') == EscapeOdd(Split(line, '$'))
  {
    var parts := Split(line, '$');
    forall k | 0 <= k < |parts| ensures '$' !in EscapeOdd(parts)[k] {
      if k % 2 == 1 {
        EscapeBracesDollarFree(parts[k]);
      }
    }
    SplitJoin(EscapeOdd(parts), '$');
  }

  /** The rewrite keeps every `$`. */
  lemma InlineLatexKeepsDollars(line: string)
    ensures Count('$', InlineLatexOf(line)) == Count('$', line)
  {
    if '$' in line {
      InlineLatexSegments(line);
    }
  }

  // ---------------------------------------------------------------------------
  // Inline code

  /**
   * What `findall` reports for `` `(.+?)` `` from position `i`: the shortest
   * non-empty text up to the next backtick on the same line, scanning on
   * after each match.
   */
  function CodeSpans(line: string, i: nat): (spans: seq<string>)
    decreases |line| - i
    ensures '`' !in line ==> spans == []
    ensures forall k :: 0 <= k < |spans| ==> |spans[k]| > 0 && '\n' !in spans[k]
  {
    if i >= |line| then []
    else if line[i] == '`' && i + 1 < |line| && line[i + 1] != '\n' then
      match FindInLine(line, "`", i + 2)
      case Some(m) =>
        assert forall k :: i + 1 <= k < m ==> line[i + 1..m][k - i - 1] == line[k];
        [line[i + 1..m]] + CodeSpans(line, m + 1)
      case None => CodeSpans(line, i + 1)
    else CodeSpans(line, i + 1)
  }

  /** A span that already starts with `{` or a backtick is left alone. */
  predicate Annotated(span: string) {
    StartsWith(span, "{") || StartsWith(span, "`")
  }

  /** Replaces every `` `span` `` by `` `{code} span` `` unless the span is already annotated. */
  function Annotate(line: string, span: string): string {
    if Annotated(span) then line else ReplaceAll(line, "`" + span + "`", "`{code} " + span + "`")
  }

  function AnnotateAll(line: string, spans: seq<string>): string
    decreases |spans|
  {
    if spans == [] then line else AnnotateAll(Annotate(line, spans[0]), spans[1..])
  }

  /** The specification of the inline-code rewrite. */
  function InlineCodeOf(line: string): string {
    AnnotateAll(line, CodeSpans(line, 0))
  }

  /** Rewrites the line once per span found in the original line. */
  method InlineCode(line: string) returns (r: string)
    ensures r == InlineCodeOf(line)
  {
    var spans := CodeSpans(line, 0);
    r := line;
    var i := 0;
    while i < |spans|
      invariant 0 <= i <= |spans|
      invariant AnnotateAll(r, spans[i..]) == InlineCodeOf(line)
    {
      var span := spans[i];
      if !StartsWith(span, "{") && !StartsWith(span, "`") {
        r := ReplaceAll(r, "`" + span + "`", "`{code} " + span + "`");
      }
      assert spans[i..][1..] == spans[i + 1..];
      i := i + 1;
    }
  }

  /** Tagging a span adds no backtick and removes none. */
  lemma {:induction false} AnnotateAllKeepsBackticks(line: string, spans: seq<string>)
    ensures Count('`', AnnotateAll(line, spans)) == Count('`', line)
    decreases |spans|
  {
    if spans != [] {
      var m := spans[0];
      if !Annotated(m) {
        CountConcat('`', "`", m);
        CountConcat('`', "`" + m, "`");
        CountConcat('`', "`{code} ", m);
        CountConcat('`', "`{code} " + m, "`");
        assert Count('`', "`{code} ") == 1;
        ReplaceAllCount('`', line, "`" + m + "`", "`{code} " + m + "`");
      }
      AnnotateAllKeepsBackticks(Annotate(line, m), spans[1..]);
    }
  }

  lemma InlineCodeKeepsBackticks(line: string)
    ensures Count('`', InlineCodeOf(line)) == Count('`', line)
  {
    AnnotateAllKeepsBackticks(line, CodeSpans(line, 0));
  }

  /** Spans that are all annotated already leave the line unchanged: tagging is never applied twice. */
  lemma {:induction false} AnnotatedSpansUnchanged(line: string, spans: seq<string>)
    requires forall k :: 0 <= k < |spans| ==> Annotated(spans[k])
    ensures AnnotateAll(line, spans) == line
    decreases |spans|
  {
    if spans != [] {
      AnnotatedSpansUnchanged(line, spans[1..]);
    }
  }

  lemma InlineCodeLeavesAnnotatedLine(line: string)
    requires forall k :: 0 <= k < |CodeSpans(line, 0)| ==> Annotated(CodeSpans(line, 0)[k])
    ensures InlineCodeOf(line) == line
  {
    AnnotatedSpansUnchanged(line, CodeSpans(line, 0));
  }

  // ---------------------------------------------------------------------------
  // Inline images

  datatype ImageRef = ImageRef(alt: string, link: string)

  function MarkdownImage(r: ImageRef): string {
    "![" + r.alt + "](" + r.link + ")"
  }

  function ImageTag(r: ImageRef): string {
    "<img src=\"" + r.link + "\" alt=\"" + r.alt + "\">"
  }

  /**
   * What `findall` reports for `!\[(.*?)]\((.+?)\)` from position `i`: the
   * shortest alt text up to `](`, then the shortest non-empty link up to `)`,
   * neither crossing a line feed.
   */
  function ImageRefs(line: string, i: nat): (refs: seq<ImageRef>)
    decreases |line| - i
    ensures !Contains(line, "![") ==> refs == []
    ensures forall k :: 0 <= k < |refs| ==> |refs[k].link| > 0
  {
    if i + 2 > |line| then []
    else if StartsAt(line, i, "![") then
      match FindInLine(line, "](", i + 2)
      case None => ImageRefs(line, i + 1)
      case Some(k) =>
        if k + 2 < |line| && line[k + 2] != '\n' then
          match FindInLine(line, ")", k + 3)
          case None => ImageRefs(line, i + 1)
          case Some(m) => [ImageRef(line[i + 2..k], line[k + 2..m])] + ImageRefs(line, m + 1)
        else ImageRefs(line, i + 1)
    else ImageRefs(line, i + 1)
  }

  function RewriteImages(line: string, refs: seq<ImageRef>): string
    decreases |refs|
  {
    if refs == [] then line
    else
      var r := refs[0];
      RewriteImages(if r.link != "" then ReplaceAll(line, MarkdownImage(r), ImageTag(r)) else line, refs[1..])
  }

  /** The specification of the inline-image rewrite. */
  function InlineImagesOf(line: string): (r: string)
    ensures !Contains(line, "![") ==> r == line
  {
    RewriteImages(line, ImageRefs(line, 0))
  }

  /** A line with one image reference gets every copy of it replaced by the `<img>` tag. */
  lemma SingleImageRewritten(line: string)
    requires |ImageRefs(line, 0)| == 1
    ensures var r := ImageRefs(line, 0)[0];
      InlineImagesOf(line) == ReplaceAll(line, MarkdownImage(r), ImageTag(r))
  {
    var refs := ImageRefs(line, 0);
    var r := refs[0];
    assert r.link != "";
    var once := ReplaceAll(line, MarkdownImage(r), ImageTag(r));
    assert refs[1..] == [];
    assert RewriteImages(line, refs) == RewriteImages(once, []);
  }

  /**
   * `![a](l)` holds the one reference `(a, l)`, and replacing that reference
   * by its tag gives `<img src="l" alt="a">`: by `SingleImageRewritten`, the
   * rewrite of the line.
   */
  lemma InlineImageExample()
    ensures ImageRefs("![a](l)", 0) == [ImageRef("a", "l")]
    ensures MarkdownImage(ImageRef("a", "l")) == "![a](l)"
    ensures ImageTag(ImageRef("a", "l")) == "<img src=\"l\" alt=\"a\">"
    ensures ReplaceAll("![a](l)", "![a](l)", "<img src=\"l\" alt=\"a\">") == "<img src=\"l\" alt=\"a\">"
  {
    ImageSampleRefs();
    ReplaceAllWhole("![a](l)", "<img src=\"l\" alt=\"a\">");
  }

  /** The image pattern finds `a` and `l` in `![a](l)`. */
  lemma ImageSampleRefs()
    ensures ImageRefs("![a](l)", 0) == [ImageRef("a", "l")]
  {
    var s := "![a](l)";
    assert StartsAt(s, 0, "![") by { assert s[0..2] == "!["; }
    assert FindInLine(s, "](", 3) == Some(3) by { assert s[3..5] == "]("; }
    assert FindInLine(s, "](", 2) == Some(3) by {
      assert s[2..4] != "](" by { assert s[2..4][0] == 'a'; }
    }
    assert FindInLine(s, ")", 6) == Some(6) by { assert s[6..7] == ")"; }
    assert ImageRefs(s, 7) == [];
    assert s[2..3] == "a" && s[5..6] == "l";
  }

  /** Rewrites the line once per image reference found in the original line. */
  method InlineImages(line: string) returns (r: string)
    ensures r == InlineImagesOf(line)
  {
    var refs := ImageRefs(line, 0);
    r := line;
    var i := 0;
    while i < |refs|
      invariant 0 <= i <= |refs|
      invariant RewriteImages(r, refs[i..]) == InlineImagesOf(line)
    {
      var alt, link := refs[i].alt, refs[i].link;
      if link != "" {
        r := ReplaceAll(r, "![" + alt + "](" + link + ")", "<img src=\"" + link + "\" alt=\"" + alt + "\">");
      }
      assert refs[i..][1..] == refs[i + 1..];
      i := i + 1;
    }
  }
}
