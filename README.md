# Textbook exporter model

A Dafny model of the converter that turns a Jupyter notebook into Mathigon
textbook markdown. The converter walks the notebook's cells in order:

- **Markdown cells.** Their glossary and formula metadata are merged into the
  textbook resources. Their goal metadata becomes a JavaScript function.
  Their text is rewritten line by line:
  - display math becomes `latex` fences;
  - code fences get a language;
  - HTML comments become `:::` directives;
  - hero, Vue and ordinary images are rewritten;
  - headings get levels and ids;
  - inline math, inline code and inline images are adjusted.
- **Code cells.** These become `q-code-exercise` blocks with their outputs.
- **The index.** The collected headings become the textbook index.

The result is the markdown text plus the updated `textbook` resources
dictionary.

## Modules

| module | what it holds |
|---|---|
| `Wrappers` | `Option`. |
| `Strings` | The string operations the converter uses, written out: `split`, `join`, `strip`, `replace`, `startswith`, `count` and integer formatting. It also has the search helpers the regular expressions are built from: the end of the line (where a greedy `.*` stops), the last occurrence in a range, and the first occurrence on the same line (where a lazy `.+?` stops). |
| `Notebook` | Cells, metadata, outputs and mime bundles. A dictionary whose key order matters is a sequence of pairs. |
| `Inline` | The three inline rewrites and the matchers for their patterns. Each loop is a method, proved against a function that specifies it. |
| `Converters` | Attachments, block comments, hero images, Vue components and images, each with the matcher for its pattern. |
| `Headings` | `handle_heading`, the matcher for the `id=` pattern, and the uniqueness of the ids it synthesises. |
| `Scanner` | `handle_markdown_cell`. The line loop is a method, proved against a fold over the lines. |
| `CodeCells` | Code-cell outputs, the `q-code-exercise` widget, the pylint-comment substitution and `handle_code_cell`. |
| `Resources` | The textbook dictionary as a `ResourceBag` class that the glossary, formulas, goals and index handlers update in place, plus the index construction. |
| `Exporter` | The cell loop of `from_notebook_node`, with the matcher for the blank pattern. It is a method that updates a `ResourceBag`, proved against a fold over the cells. |

Raised exceptions are modelled as `None`:

- a missing or empty attachment (`KeyError`, `AttributeError`);
- a heading without a space (`ValueError`);
- an output whose first image-like key mentions `image/svg+xml` without the bundle having that exact key (`KeyError`).
- a code cell whose metadata gives grader attributes and an empty `goals` list (`IndexError` on `goal[0]`, line 375; `CodeCells.GraderDefined`, so the cell fails through `CodeCells.CodeCellDefined`).

An output with no mime type the code handles is not an error: the source returns `None` for it and the cell shows nothing for that output. A failing cell fails the whole conversion. `Exporter.ExportFailsOnlyOnCells` states exactly when this happens for the corrected program. The two defects listed under Findings are corrected in `Export` and `Exporter.FromNotebookNode`: the `UnboundLocalError` at line 582 and the `TypeError` that the as-written attachment lookup causes at line 164 do not make them return `None`.

## Model

All source paths are relative to the repository root.

| member | source | states |
|---|---|---|
| Inline.EscapeBracesDollarFree | converter/textbook-converter/textbook_converter/TextbookExporter.py:95-96 | Escaping `\{` and `\}` never introduces a `$`. |
| Inline.InlineLatexOf | converter/textbook-converter/textbook_converter/TextbookExporter.py:89-90 | A line without `$` is returned unchanged. |
| Inline.InlineLatex | converter/textbook-converter/textbook_converter/TextbookExporter.py:87-99 | The loop over the `$`-separated pieces computes `InlineLatexOf`. |
| Inline.InlineLatexSegments | converter/textbook-converter/textbook_converter/TextbookExporter.py:93-99 | Splitting the result at `$` gives back the original pieces, with exactly the odd-numbered (inside-math) pieces brace-escaped. |
| Inline.InlineLatexKeepsDollars | converter/textbook-converter/textbook_converter/TextbookExporter.py:93-99 | The rewrite keeps the number of `$` in the line. |
| Inline.CodeSpans | converter/textbook-converter/textbook_converter/TextbookExporter.py:28 | The lazy backtick pattern finds nothing in a line without a backtick. Every span it finds is non-empty and lies within one line. |
| Inline.InlineCode | converter/textbook-converter/textbook_converter/TextbookExporter.py:73-85 | The loop, one replacement per span found in the original line, computes `InlineCodeOf`. |
| Inline.AnnotateAllKeepsBackticks | converter/textbook-converter/textbook_converter/TextbookExporter.py:82-84 | Any sequence of span replacements keeps the number of backticks. |
| Inline.InlineCodeKeepsBackticks | converter/textbook-converter/textbook_converter/TextbookExporter.py:73-85 | `handle_inline_code` keeps the number of backticks. |
| Inline.AnnotatedSpansUnchanged | converter/textbook-converter/textbook_converter/TextbookExporter.py:83-84 | Spans that already start with `{` or a backtick are never rewritten. |
| Inline.InlineCodeLeavesAnnotatedLine | converter/textbook-converter/textbook_converter/TextbookExporter.py:73-85 | A line whose spans are all annotated already comes back unchanged, so the rewrite is idempotent on such lines. |
| Inline.ImageRefs | converter/textbook-converter/textbook_converter/TextbookExporter.py:18 | The inline-image pattern finds nothing in a line without `![`. Every link it captures is non-empty. |
| Inline.InlineImagesOf | converter/textbook-converter/textbook_converter/TextbookExporter.py:55-70 | A line without `![` is returned unchanged. |
| Inline.InlineImages | converter/textbook-converter/textbook_converter/TextbookExporter.py:55-70 | The replacement loop computes `InlineImagesOf`. |
| Inline.SingleImageRewritten | converter/textbook-converter/textbook_converter/TextbookExporter.py:55-70 | A line with one reference `![alt](link)` gets every copy of it replaced by `<img src="link" alt="alt">`. |
| Inline.InlineImageExample | converter/textbook-converter/textbook_converter/TextbookExporter.py:55-63 | `![a](l)` holds the one reference (a, l), and its replacement is `<img src="l" alt="a">`, so with `SingleImageRewritten` the line becomes that tag. |
| Converters.FirstImageKey | converter/textbook-converter/textbook_converter/TextbookExporter.py:142-145 | Finds the first key in dictionary order that starts with `image/`. No earlier key does, and `None` means no key does. |
| Converters.AttachmentDataAsWritten | converter/textbook-converter/textbook_converter/TextbookExporter.py:138-147 | As written: a source that does not name a cell attachment is returned as is. One that does name an attachment never comes back as the source text: it is a data URI or the mime dictionary. |
| Converters.AsWrittenReturnsBundle | converter/textbook-converter/textbook_converter/TextbookExporter.py:141-146 | As written, an attachment with no `image/` entry yields the mime dictionary itself, not a string. The corrected lookup yields the source. |
| Converters.GetAttachmentData | converter/textbook-converter/textbook_converter/TextbookExporter.py:138-147 | Corrected lookup: the source itself when it names no attachment or the attachment has no image entry. Otherwise the `data:` URI of the first `image/` entry. |
| Converters.HtmlImgSource | converter/textbook-converter/textbook_converter/TextbookExporter.py:16 | The captured `src` is non-empty and occurs in the line. There is no match in a line without `<img`. |
| Converters.HtmlImgFromStarts | converter/textbook-converter/textbook_converter/TextbookExporter.py:16 | A match implies the line contains `<img`. |
| Converters.HandleAttachments | converter/textbook-converter/textbook_converter/TextbookExporter.py:150-166 | The line is unchanged when there is no `<img` match, when its source is not an attachment, or when there is no cell. Otherwise every occurrence of the source is replaced by its resolved form. |
| Converters.AttachmentInlined | converter/textbook-converter/textbook_converter/TextbookExporter.py:150-166 | When the source names an attachment with an `image/` entry, the line afterwards holds that entry's data URI. |
| Converters.CommentGroup | converter/textbook-converter/textbook_converter/TextbookExporter.py:24 | The captured group starts with `:::` and stays within one line. |
| Converters.BlockComment | converter/textbook-converter/textbook_converter/TextbookExporter.py:102-115 | Text that is not a `<!-- ::: ... -->` comment is unchanged. A matching comment yields its captured group, a single line starting with `:::`. |
| Converters.BlockCommentExamples | converter/textbook-converter/textbook_converter/TextbookExporter.py:24 | The comment pattern captures `::: note` from `<!-- ::: note -->`, so `BlockComment` returns `::: note`. |
| Converters.BracketParen | converter/textbook-converter/textbook_converter/TextbookExporter.py:9 | The greedy `](...)` split. It uses the last `](` before the closing `)` on the line. |
| Converters.HeroPath | converter/textbook-converter/textbook_converter/TextbookExporter.py:9 | The captured hero path lies within one line. |
| Converters.HeroImage | converter/textbook-converter/textbook_converter/TextbookExporter.py:188-201 | A match becomes `> hero: path`. A line not starting with `![hero:` (after leading space) is unchanged. |
| Converters.HeroImageExample | converter/textbook-converter/textbook_converter/TextbookExporter.py:9 | The hero pattern captures `a.png` from `![hero:x](a.png)`, so `HeroImage` renders `> hero: a.png`. |
| Converters.VueName | converter/textbook-converter/textbook_converter/TextbookExporter.py:12 | The captured component name lies within one line. |
| Converters.VueComponent | converter/textbook-converter/textbook_converter/TextbookExporter.py:118-135 | A match becomes the indented component name. A line not starting with `![vue:` is unchanged. |
| Converters.ImagePath | converter/textbook-converter/textbook_converter/TextbookExporter.py:15 | The captured image path lies within one line. |
| Converters.HandleImages | converter/textbook-converter/textbook_converter/TextbookExporter.py:169-185 | A match becomes an indented `figure: x-img(src="...")` line with the path resolved through the attachment lookup. A non-attachment path is kept verbatim, and a line that does not match is unchanged. |
| Headings.Level | converter/textbook-converter/textbook_converter/TextbookExporter.py:206-208 | The level counts the `#` before the first space, so it is at most the heading's length. |
| Headings.TagId | converter/textbook-converter/textbook_converter/TextbookExporter.py:21 | The `id=` match starts at a `<`, and its captured id lies inside the heading. |
| Headings.Stem | converter/textbook-converter/textbook_converter/TextbookExporter.py:226 | The id stem has at most 25 characters and no `-`. |
| Headings.HandleHeading | converter/textbook-converter/textbook_converter/TextbookExporter.py:204-240 | Every branch's id, level, title and text. In a directive block: no id or level, the title, and one more `#`. Without `id=`: the stripped title; at level 1 or at `-0-0` the slug of the section or title; at level 1 the line itself (problem set) or one more `#`; at `-0-0` a `##` heading; in a problem set at level 2 the hyphenated heading text as id and a `---`/`> section:` block; otherwise a positional id of at most 25 characters plus the suffix inside an `<hN>` heading. With `id=`: its value, the text before the tag as title, and the same three texts with `hs[level:]` in the `<hN>` one. |
| Headings.SuffixDashes | converter/textbook-converter/textbook_converter/TextbookExporter.py:315 | The positional suffix has `-` only at its start and between the two numbers. |
| Headings.SuffixFirstPosition | converter/textbook-converter/textbook_converter/TextbookExporter.py:219 | `-0-0` occurs in the suffix if and only if the heading is line 0 of cell 0. |
| Headings.SuffixInjective | converter/textbook-converter/textbook_converter/TextbookExporter.py:315 | Different (cell, line) positions give different suffixes. |
| Headings.DistinctPositionsDistinctIds | converter/textbook-converter/textbook_converter/TextbookExporter.py:226 | Positional ids built from different positions differ. |
| Headings.DefaultIdsDistinct | converter/textbook-converter/textbook_converter/TextbookExporter.py:214-227 | Two headings at different positions that both take the positional-id branch get different ids. |
| Scanner.SplitLines | converter/textbook-converter/textbook_converter/TextbookExporter.py:246 | No line contains a line break. |
| Scanner.SplitLinesIsSplit | converter/textbook-converter/textbook_converter/TextbookExporter.py:246 | On text whose only line breaks are `\n` and that does not end in one, `splitlines` is `split("\n")`. |
| Scanner.HandleMarkdownCell | converter/textbook-converter/textbook_converter/TextbookExporter.py:243-331 | The line loop computes `MarkdownCellOf`, the fold over the cell's lines. |
| Scanner.ScanFailureSticks | converter/textbook-converter/textbook_converter/TextbookExporter.py:252-331 | A line that raises makes the whole cell fail. |
| Scanner.MathIndentIsLeadingSpace | converter/textbook-converter/textbook_converter/TextbookExporter.py:264-266 | The indent before `$$` is exactly the line's leading whitespace, so the assertion in the source always holds. |
| Scanner.BlockHeadingsNotRecorded | converter/textbook-converter/textbook_converter/TextbookExporter.py:314-318 | Headings inside a directive block are not added to the heading list. |
| Scanner.HeadingRecorded | converter/textbook-converter/textbook_converter/TextbookExporter.py:293-319 | Outside math, code and blocks, a line whose text after `handle_attachments` starts with `#` (after leading whitespace) succeeds exactly when that text contains a space; when it does, its `(id, level, title)` is appended to the heading list, the heading builder's text is the one piece emitted, and the flags are unchanged. |
| Scanner.ResolvedLineStep | converter/textbook-converter/textbook_converter/TextbookExporter.py:278-295 | Outside math and code, a line that opens neither is dispatched on its text after `handle_attachments`. |
| Scanner.HeadingKind | converter/textbook-converter/textbook_converter/TextbookExporter.py:295-308 | A line starting with `#` after leading whitespace falls through the comment, hero, component and image tests to the heading branch. |
| Scanner.UnindentedHeadingRecorded | converter/textbook-converter/textbook_converter/TextbookExporter.py:293-319 | A heading written at column 0 with a space and no `<img` is untouched by attachment handling and is recorded as it stands. |
| Scanner.SyntaxHeading | converter/textbook-converter/textbook_converter/TextbookExporter.py:308-316 | A line starting with `#` after leading space is handled as a heading. |
| Scanner.CodeLinesVerbatim | converter/textbook-converter/textbook_converter/TextbookExporter.py:278-284 | Inside a code fence a line is copied verbatim. The fence stays open exactly when the line is not a fence. |
| Scanner.MathBlockEmitted | converter/textbook-converter/textbook_converter/TextbookExporter.py:253-276 | A `$$` opening line, one body line and a closing line give a `latex` fence at the opening indentation, the rest of the opening line, the body with a line feed, the closing line without `$$`, and the closing fence; math mode is off again, the other flags and the headings are unchanged. |
| Scanner.MathOpenEmitted | converter/textbook-converter/textbook_converter/TextbookExporter.py:264-276 | An opening `$$` line that does not close emits the fence and the rest of the line at its indentation and turns math mode on. |
| Scanner.MathBodyCopied | converter/textbook-converter/textbook_converter/TextbookExporter.py:253-263 | Inside display math, a line that does not end in `$$` is copied, then a line feed. |
| Scanner.MathCloseEmitted | converter/textbook-converter/textbook_converter/TextbookExporter.py:253-258 | A line ending in `$$` (ignoring trailing spaces and dots) is emitted without `$$` and closes the fence at the opening indentation. |
| Scanner.MathOneLine | converter/textbook-converter/textbook_converter/TextbookExporter.py:264-272 | `$$x$$` on one line opens and closes the fence in one step, with the text between the markers. |
| Scanner.MathOpensInsideCode | converter/textbook-converter/textbook_converter/TextbookExporter.py:264-276 | `$$` opens display math even inside a code fence, because the math test comes first. |
| Scanner.DefaultLineEmitted | converter/textbook-converter/textbook_converter/TextbookExporter.py:320-327 | Outside math and code, a line that starts with none of the recognised syntax once its attachments are resolved contributes its inline-rewritten form and a line feed; the flags and headings are unchanged. |
| Scanner.PlainLineUnchanged | converter/textbook-converter/textbook_converter/TextbookExporter.py:320-327 | A plain prose line is emitted unchanged, followed by a line feed. |
| Scanner.PlainDefaultLine | converter/textbook-converter/textbook_converter/TextbookExporter.py:321-325 | The inline rewrites leave a line without `$`, backtick, `!` or backslash unchanged. |
| Scanner.PlainLinesScan | converter/textbook-converter/textbook_converter/TextbookExporter.py:252-327 | A run of plain lines succeeds. It leaves every flag off, records no heading, and emits each line followed by a line feed. |
| Scanner.PlainCellText | converter/textbook-converter/textbook_converter/TextbookExporter.py:243-331 | A cell made of plain lines converts to those lines, each terminated, plus one more line feed. |
| Scanner.MarkdownCellEndsWithNewline | converter/textbook-converter/textbook_converter/TextbookExporter.py:329-331 | A converted markdown cell always ends with a line feed. |
| CodeCells.FirstImageLike | converter/textbook-converter/textbook_converter/TextbookExporter.py:336-340 | Finds the first key in dictionary order that contains `image/`. No earlier key does, and `None` means no key does. |
| CodeCells.OutputText | converter/textbook-converter/textbook_converter/TextbookExporter.py:334-354 | Picks by mime priority: for the first image-like key, the `image/svg+xml` entry or an image; else the HTML; else the stripped LaTeX with every `$$` removed; else a `pre` block of the plain text; else nothing. An output without `data` uses its `text`. |
| CodeCells.ImageWins | converter/textbook-converter/textbook_converter/TextbookExporter.py:339-340 | A non-SVG image key yields an `<img>` tag with a base64 data URI of that entry. |
| CodeCells.PlainBlockRoundTrip | converter/textbook-converter/textbook_converter/TextbookExporter.py:345-352 | The `pre` block begins with its header. Undoing the indentation gives back the original text. |
| CodeCells.GraderAttr | converter/textbook-converter/textbook_converter/TextbookExporter.py:360-369 | Import and function take precedence over id and answer. There is no attribute if and only if neither pair is present. |
| CodeCells.GraderWidget | converter/textbook-converter/textbook_converter/TextbookExporter.py:371-377 | Always `q-code-exercise(...)`. It holds the checking attribute when there is one, plus the first goal's id when goals are present. |
| CodeCells.PylintMatchEnd | converter/textbook-converter/textbook_converter/TextbookExporter.py:393 | A pylint-comment match ends after where it starts. |
| CodeCells.StripPylintFrom | converter/textbook-converter/textbook_converter/TextbookExporter.py:393 | Removing pylint comments never lengthens the text or adds characters. |
| CodeCells.FormatSource | converter/textbook-converter/textbook_converter/TextbookExporter.py:387-393 | No `<` survives the escaping. |
| CodeCells.NoPylintUnchanged | converter/textbook-converter/textbook_converter/TextbookExporter.py:393 | Text without `# pylint:` is unchanged by the pylint substitution. |
| CodeCells.OutputPiece | converter/textbook-converter/textbook_converter/TextbookExporter.py:415-430 | An output without text contributes a block only if it is LaTeX. Every block is indented and ends in a blank line. |
| CodeCells.FramedContent | converter/textbook-converter/textbook_converter/TextbookExporter.py:417-429 | Unframing a `pre` block or a `div.` block (dropping its header and the blank line, and taking out the indentation) gives back the text. A LaTeX text sits stripped and re-indented in a `latex` fence. An empty non-LaTeX text gives no block. |
| CodeCells.OutputPieceContent | converter/textbook-converter/textbook_converter/TextbookExporter.py:415-430 | The block of an output frames the output's own text, so unframing it gives back `OutputText`. |
| CodeCells.OutputBlocks | converter/textbook-converter/textbook_converter/TextbookExporter.py:415-430 | The loop over the outputs yields each output's block in order, skipping outputs that contribute nothing (`OutputPieces`). |
| CodeCells.HandleCodeCell | converter/textbook-converter/textbook_converter/TextbookExporter.py:380-434 | The code-cell method computes `CodeCellOf`. |
| CodeCells.CodeCellFrame | converter/textbook-converter/textbook_converter/TextbookExporter.py:397-432 | A converted code cell opens with `::: q-code-exercise(` and closes with `:::`. |
| CodeCells.CellSettingWins | converter/textbook-converter/textbook_converter/TextbookExporter.py:407-411 | A cell's own `include_output` overrides the textbook-wide setting. |
| CodeCells.HiddenOutputs | converter/textbook-converter/textbook_converter/TextbookExporter.py:413 | When outputs are not shown, the cell is its header and the closing `:::` only. |
| CodeCells.DefaultHides | converter/textbook-converter/textbook_converter/TextbookExporter.py:407-413 | With no cell setting and a textbook-wide `False`, outputs are hidden. |
| Resources.Merge | converter/textbook-converter/textbook_converter/TextbookExporter.py:439-448 | `{**g, **glossary}`: the union of the keys, the new value winning, and nothing changes when the metadata is absent or empty. |
| Resources.MergeKeepsKeys | converter/textbook-converter/textbook_converter/TextbookExporter.py:446-448 | No key is ever lost. |
| Resources.DistinctIds | converter/textbook-converter/textbook_converter/TextbookExporter.py:471-496 | The goal ids have no repeats, and they are exactly the ids of the goals (the set the source builds). |
| Resources.GoalHandlers | converter/textbook-converter/textbook_converter/TextbookExporter.py:479-494 | One handler per requested action: the click handler first, the value handler last. Every handler looks up element `elt<count>` by the goal's selector and scores the goal's id. |
| Resources.ClickGoalNames | converter/textbook-converter/textbook_converter/TextbookExporter.py:33-40 | The filled-in click template looks up the element by the selector and scores the id. |
| Resources.ValueGoalNames | converter/textbook-converter/textbook_converter/TextbookExporter.py:42-52 | The filled-in value template looks up the element by the selector and scores the id. |
| Resources.GoalActions | converter/textbook-converter/textbook_converter/TextbookExporter.py:478-496 | The loop over the goals produces the click and value handlers, goal by goal, and the distinct ids. |
| Resources.GoalsAppendOnly | converter/textbook-converter/textbook_converter/TextbookExporter.py:501-506 | Goal functions are only appended: the old `functions` text stays a prefix. |
| Resources.IndexFold | converter/textbook-converter/textbook_converter/TextbookExporter.py:517-528 | The index is at most two levels deep. |
| Resources.Kept | converter/textbook-converter/textbook_converter/TextbookExporter.py:518-519 | Only headings of level at most 3 take part. |
| Resources.IndexContents | converter/textbook-converter/textbook_converter/TextbookExporter.py:511-531 | The top section is the first kept heading. With no top there are no entries. Flattened, the entries are the remaining kept headings in order. |
| Resources.IndexDropsDeepHeadings | converter/textbook-converter/textbook_converter/TextbookExporter.py:517-519 | Every index entry comes from a heading of level at most 3. |
| Resources.IndexExampleFlat | converter/textbook-converter/textbook_converter/TextbookExporter.py:511-531 | With headings (a,2), (b,3), (c,2), the top is a and b and c are both entries. |
| Resources.IndexExampleNested | converter/textbook-converter/textbook_converter/TextbookExporter.py:511-531 | A deeper heading after a shallower entry becomes its subsection. |
| Resources.ResourceBag.HandleCellGlossary | converter/textbook-converter/textbook_converter/TextbookExporter.py:437-450 | The glossary becomes the merge of the old glossary and the cell's `gloss`, and nothing else changes. |
| Resources.ResourceBag.HandleCellFormulas | converter/textbook-converter/textbook_converter/TextbookExporter.py:453-466 | The formulas become the merge of the old formulas and the cell's `formulas`, and nothing else changes. |
| Resources.ResourceBag.HandleCellGoals | converter/textbook-converter/textbook_converter/TextbookExporter.py:469-508 | Returns the cell's distinct goal ids and appends the goal script to `functions`, and nothing else changes. |
| Resources.ResourceBag.HandleIndex | converter/textbook-converter/textbook_converter/TextbookExporter.py:511-537 | Returns the index of the headings and stores it only when there is none yet. |
| Exporter.FirstBlank | converter/textbook-converter/textbook_converter/TextbookExporter.py:26 | Finds the first position where `[[` is followed, on the same line, by some text and `]]`. `None` means there is none. |
| Exporter.BlankSemantics | converter/textbook-converter/textbook_converter/TextbookExporter.py:568 | `findall` finds a blank if and only if `[[`, at least one non-newline character, and `]]` occur in that order within one line. |
| Exporter.BlankExample | converter/textbook-converter/textbook_converter/TextbookExporter.py:26 | `[[x]]` is a blank. `[[]]` and a blank broken across lines are not. |
| Exporter.Prefix | converter/textbook-converter/textbook_converter/TextbookExporter.py:555-557 | The cell-id prefix consists of lower-case ASCII letters only. |
| Exporter.MarkdownStepFacts | converter/textbook-converter/textbook_converter/TextbookExporter.py:564-586 | Once `goals` is bound, a markdown cell succeeds exactly when its text converts. A successful cell keeps the settings and only extends the output, the glossary, the formulas and the functions. |
| Exporter.CodeStepFacts | converter/textbook-converter/textbook_converter/TextbookExporter.py:588-597 | A code cell succeeds exactly when it is skipped or its conversion is defined. On success it only extends what it touches. |
| Exporter.StepFacts | converter/textbook-converter/textbook_converter/TextbookExporter.py:562-597 | The same two facts for any cell kind. Raw cells change nothing. |
| Exporter.FailureSticks | converter/textbook-converter/textbook_converter/TextbookExporter.py:562-597 | Once a cell raises, no later cells can make the conversion succeed. |
| Exporter.FoldKeeps | converter/textbook-converter/textbook_converter/TextbookExporter.py:562-597 | Across the whole loop the settings are kept, the output lines only grow, no glossary or formula key is lost, and `functions` is only appended to. |
| Exporter.ExportDefined | converter/textbook-converter/textbook_converter/TextbookExporter.py:562-597 | With `goals` bound, the loop succeeds exactly when every cell succeeds on its own. |
| Exporter.ExportFailsOnlyOnCells | converter/textbook-converter/textbook_converter/TextbookExporter.py:546-607 | The conversion succeeds if and only if each cell, at its position, is convertible with the starting settings. |
| Exporter.ExportIndex | converter/textbook-converter/textbook_converter/TextbookExporter.py:599-600 | An index already in the resources is never replaced; when there is none, the index is built from the notebook's headings if it has any, and stays absent otherwise. |
| Exporter.ExportKeepsGlossary | converter/textbook-converter/textbook_converter/TextbookExporter.py:565 | The conversion keeps every glossary key that was already present. |
| Exporter.ExportKeepsFunctions | converter/textbook-converter/textbook_converter/TextbookExporter.py:570 | Existing goal functions stay a prefix of the final `functions`. |
| Exporter.ExportEndsWithNewline | converter/textbook-converter/textbook_converter/TextbookExporter.py:602-606 | The markdown text always ends with a line feed, problem set or not. |
| Exporter.FinishEndsWithNewline | converter/textbook-converter/textbook_converter/TextbookExporter.py:602-606 | Joining any loop state and adding the final line feed gives a text ending in a line feed, and replacing the first `\n---\n\n>` in a problem set keeps that last character. |
| Exporter.ExportText | converter/textbook-converter/textbook_converter/TextbookExporter.py:602-604 | Outside problem sets, the text is the loop's output lines joined, plus `\n`. |
| Exporter.SkippedCellsAddNothing | converter/textbook-converter/textbook_converter/TextbookExporter.py:588-591 | Raw cells, blank code cells and `sanity-check` code cells change neither the text nor the resources. |
| Exporter.UnboundGoalsAsWritten | converter/textbook-converter/textbook_converter/TextbookExporter.py:582 | As written, a notebook whose first cell is markdown with a blank fails, because `goals` is read before it is ever bound. |
| Exporter.CorrectionConservative | converter/textbook-converter/textbook_converter/TextbookExporter.py:582 | Wherever the code as written succeeds, binding `goals` before the loop gives exactly the same text and resources. |
| Exporter.BlankCellCorrected | converter/textbook-converter/textbook_converter/TextbookExporter.py:568-583 | With the correction, that same cell converts whenever its markdown does. |
| Exporter.ExportMarkdownCell | converter/textbook-converter/textbook_converter/TextbookExporter.py:564-586 | The markdown branch of the loop body performs `MarkdownStep` on the lines, headings, goals and resource bag. |
| Exporter.ExportCodeCell | converter/textbook-converter/textbook_converter/TextbookExporter.py:588-597 | The code branch of the loop body performs `CodeStep`. |
| Exporter.ExportCell | converter/textbook-converter/textbook_converter/TextbookExporter.py:562-597 | One loop iteration performs `CellStep`. |
| Exporter.FinishExport | converter/textbook-converter/textbook_converter/TextbookExporter.py:599-606 | After the loop, the index is stored (if any headings were seen), the final line feed is added and, in a problem set, the first rule before a `>` line is dropped, all as `Finish` prescribes. |
| Exporter.ExportNext | converter/textbook-converter/textbook_converter/TextbookExporter.py:562-597 | One loop iteration either advances the fold over the cells by one cell, with the new lines, headings, goals and resources, or the whole conversion fails. |
| Exporter.FromNotebookNode | converter/textbook-converter/textbook_converter/TextbookExporter.py:546-607 | Returns text if and only if `Export` succeeds from the bag's initial resources. The text and the final resources are then exactly those of `Export`. |

## Left out

- The nbconvert base class. The call to `super().from_notebook_node` and the notebook copy it makes are not modelled: the model starts from the copied cells and the `textbook` resources.
- The regular-expression engine in general. Only the fixed patterns the converter uses are modelled, each by a hand-written matcher.
- `\w` and `str.lower()` use their ASCII meaning. Unicode letters and case folding are not modelled. (`\s` and `str.isspace()` are the Unicode whitespace set, as in Python 3.)
- Resources.DistinctIds: the source returns the goal ids from a Python `set`, whose order is hash order. The model returns them in order of first appearance and states only that they are the same set without repeats, so the order of ids in `> goals:` is not modelled.
- Goals are assumed to carry `selector` and `id`. A goal missing either would raise `KeyError` in the source; this is not modelled.
- Mime payloads that are lists of strings are modelled as the already-joined string.
- The JavaScript goal templates are modelled as fixed text with the four fields filled in. Their JavaScript is opaque, as are base64 and SVG payloads.
- The `resources["textbook"] = {}` creation inside each handler is not modelled. `from_notebook_node` creates that dictionary before any handler runs, so in the modelled call path it has no effect.
- `is_problem_set` is modelled as an optional boolean. Other truthy values are not modelled.
- Exporter.FromNotebookNode: after a raised exception the resources are left part-updated in the source. The method's contract says nothing about the resource bag on failure.
- CodeCells.OutputText: its precondition excludes an output whose first image-like key contains `image/svg+xml` without being exactly that key, where the source raises `KeyError`. At cell level this case makes the conversion fail (`CodeCells.CodeCellDefined`). Outputs that are not dictionaries are not modelled.
- As written, comment, hero and Vue lines are appended without a trailing line feed. The model keeps this.
- Converters.HandleAttachments, Converters.HandleImages, Scanner.Step and Exporter.FromNotebookNode use the corrected attachment lookup `Converters.GetAttachmentData`, not the as-written one. For an attachment `a.txt` that holds only `text/plain`, the source raises `TypeError` on `<img src="attachment:a.txt">` (line 164) and emits `figure: x-img(src="{'text/plain': ...}")` for `![x](attachment:a.txt)` (line 182); the model keeps `attachment:a.txt` in both. The as-written lookup is `Converters.AttachmentDataAsWritten`.
- `handle_index` keeps a single `last_level`. For headings (a,2), (b,3), (c,2), a becomes the top section and the entry list is still empty when b arrives (TextbookExporter.py:522), so b becomes the first entry; c, whose level 2 is at most b's level 3, becomes a second entry and not a subsection. `Resources.IndexExampleFlat` states this.

## Findings

| source | as written | input that shows it | evidently intended | confidence | as-written member | corrected member |
|---|---|---|---|---|---|---|
| converter/textbook-converter/textbook_converter/TextbookExporter.py:141-146 | `img_data` is reassigned only when an `image/` key is found, so otherwise the mime dictionary itself is returned and later passed to `str.replace` | `<img src="attachment:a.txt">` with attachment `a.txt` holding only `text/plain` | return the image source unchanged when no image entry exists | not executed | Converters.AsWrittenReturnsBundle | Converters.GetAttachmentData |
| converter/textbook-converter/textbook_converter/TextbookExporter.py:582 | `goals` is bound only by `handle_cell_goals`, so it is unbound on a markdown cell with blanks before any cell that binds it; later such cells read a stale value | a notebook whose first cell is markdown containing `[[x]]` (`UnboundLocalError`) | `goals` bound to `[]` before the loop; where the code as written succeeds, the result is the same | not executed | Exporter.UnboundGoalsAsWritten | Exporter.BlankCellCorrected |
