/**
 * The single-line converters: attachment resolution, block-directive comments,
 * hero images, embedded Vue components and figure images. Each one matches a
 * fixed pattern and otherwise returns its input unchanged.
 */
module Converters {
  import opened Wrappers
  import opened Strings
  import opened Notebook

  const AttachmentPrefix := "attachment:"

  // ---------------------------------------------------------------------------
  // Attachments

  /** The first key of the bundle, from position `from` on, that starts with `image/`. */
  function FirstImageKey(b: MimeBundle, from: nat): (r: Option<nat>)
    decreases |b| - from
    ensures r.Some? ==> from <= r.value < |b| && StartsWith(b[r.value].0, "image/")
    ensures r.Some? ==> forall j :: from <= j < r.value ==> !StartsWith(b[j].0, "image/")
    ensures r.None? ==> forall j :: from <= j < |b| ==> !StartsWith(b[j].0, "image/")
  {
    if from >= |b| then None
    else if StartsWith(b[from].0, "image/") then Some(from)
    else FirstImageKey(b, from + 1)
  }

  /** The source names an attachment of an actual cell (`cell and source.startswith("attachment:")`). */
  predicate NamesAttachment(src: string, cell: Option<Cell>) {
    cell.Some? && StartsWith(src, AttachmentPrefix)
  }

  /**
   * The lookup does not raise: the cell has an attachment table with a
   * non-empty bundle under the name (otherwise the source raises `KeyError`
   * or `AttributeError`).
   */
  predicate AttachmentDefined(src: string, cell: Option<Cell>) {
    NamesAttachment(src, cell) ==>
      && cell.value.attachments.Some?
      && src[|AttachmentPrefix|..] in cell.value.attachments.value
      && |cell.value.attachments.value[src[|AttachmentPrefix|..]]| > 0
  }

  function AttachmentBundle(src: string, cell: Option<Cell>): MimeBundle
    requires NamesAttachment(src, cell) && AttachmentDefined(src, cell)
  {
    cell.value.attachments.value[src[|AttachmentPrefix|..]]
  }

  function DataUri(entry: (string, string)): string {
    "data:" + entry.0 + ";base64," + entry.1
  }

  /** What `get_attachment_data` hands back: a string, or (as written) the bundle itself. */
  datatype AttachmentLookup = Text(text: string) | Bundle(bundle: MimeBundle)

  /**
   * `get_attachment_data` as written: when the bundle has no `image/` key the
   * loop leaves `img_data` bound to the non-empty bundle, which is returned.
   */
  function AttachmentDataAsWritten(src: string, cell: Option<Cell>): (r: AttachmentLookup)
    requires AttachmentDefined(src, cell)
    ensures !NamesAttachment(src, cell) ==> r == Text(src)
    ensures NamesAttachment(src, cell) ==> r != Text(src)
  {
    if NamesAttachment(src, cell) then
      var b := AttachmentBundle(src, cell);
      match FirstImageKey(b, 0)
      case Some(i) =>
        assert DataUri(b[i])[0] == 'd' && src[0] == src[..|AttachmentPrefix|][0] == 'a';
        Text(DataUri(b[i]))
      case None => Bundle(b)
    else Text(src)
  }

  /** The as-written lookup hands back a dictionary, not a string, for an attachment without an image. */
  lemma AsWrittenReturnsBundle(src: string, cell: Option<Cell>)
    requires NamesAttachment(src, cell) && AttachmentDefined(src, cell)
    requires FirstImageKey(AttachmentBundle(src, cell), 0).None?
    ensures AttachmentDataAsWritten(src, cell) == Bundle(AttachmentBundle(src, cell))
    ensures GetAttachmentData(src, cell) == src
  {
  }

  /**
   * `get_attachment_data` as intended: the data URI of the first `image/`
   * entry of the named attachment, and the source unchanged otherwise.
   */
  function GetAttachmentData(src: string, cell: Option<Cell>): (r: string)
    requires AttachmentDefined(src, cell)
    ensures !NamesAttachment(src, cell) ==> r == src
    ensures NamesAttachment(src, cell) && FirstImageKey(AttachmentBundle(src, cell), 0).None? ==> r == src
    ensures NamesAttachment(src, cell) && FirstImageKey(AttachmentBundle(src, cell), 0).Some? ==>
      var b := AttachmentBundle(src, cell);
      var i := FirstImageKey(b, 0).value;
      StartsWith(b[i].0, "image/") && r == DataUri(b[i])
  {
    match AttachmentDataAsWritten(src, cell)
    case Text(t) => t
    case Bundle(_) => src
  }

  /** Group 2 of `<img(.+?)src="(.+?)"(.*?)/?>` for a match starting at `i`, as a range of the line. */
  function HtmlImgAt(line: string, i: nat): (r: Option<(nat, nat)>)
    requires StartsAt(line, i, "<img")
    ensures r.Some? ==> r.value.0 < r.value.1 <= |line|
  {
    if i + 4 < |line| && line[i + 4] != '\n' then
      match FindInLine(line, "src=\"", i + 5)
      case None => None
      case Some(k) =>
        if k + 5 < |line| && line[k + 5] != '\n' then
          match FindInLine(line, "\"", k + 6)
          case None => None
          case Some(m) => if FindInLine(line, ">", m + 1).Some? then Some((k + 5, m)) else None
        else None
    else None
  }

  /** The leftmost match of the `<img ... src="..." ...>` pattern. */
  function HtmlImgFrom(line: string, i: nat): (r: Option<(nat, nat)>)
    decreases |line| - i
    ensures r.Some? ==> r.value.0 < r.value.1 <= |line|
  {
    if i + 4 > |line| then None
    else if StartsAt(line, i, "<img") && HtmlImgAt(line, i).Some? then HtmlImgAt(line, i)
    else HtmlImgFrom(line, i + 1)
  }

  /** The source of the first `<img>` tag of the line, if any. */
  function HtmlImgSource(line: string): (r: Option<string>)
    ensures r.Some? ==> |r.value| > 0 && Contains(line, r.value)
    ensures !Contains(line, "<img") ==> r.None?
  {
    match HtmlImgFrom(line, 0)
    case None => None
    case Some((a, b)) =>
      HtmlImgFromStarts(line, 0);
      assert StartsAt(line, a, line[a..b]);
      Some(line[a..b])
  }

  lemma {:induction false} HtmlImgFromStarts(line: string, i: nat)
    requires HtmlImgFrom(line, i).Some?
    ensures Contains(line, "<img")
    decreases |line| - i
  {
    if !(StartsAt(line, i, "<img") && HtmlImgAt(line, i).Some?) {
      HtmlImgFromStarts(line, i + 1);
    }
  }

  predicate AttachmentsDefined(line: string, cell: Option<Cell>) {
    HtmlImgSource(line).Some? ==> AttachmentDefined(HtmlImgSource(line).value, cell)
  }

  /** Replaces the source of the line's first `<img>` tag, everywhere in the line, by its resolved form. */
  function HandleAttachments(line: string, cell: Option<Cell>): (r: string)
    requires AttachmentsDefined(line, cell)
    ensures HtmlImgSource(line).None? ==> r == line
    ensures HtmlImgSource(line).Some? && !NamesAttachment(HtmlImgSource(line).value, cell) ==> r == line
    ensures cell.None? ==> r == line
    ensures HtmlImgSource(line).Some? ==>
      r == ReplaceAll(line, HtmlImgSource(line).value, GetAttachmentData(HtmlImgSource(line).value, cell))
  {
    match HtmlImgSource(line)
    case None => line
    case Some(src) =>
      var data := GetAttachmentData(src, cell);
      ReplaceAllIdentity(line, src);
      ReplaceAll(line, src, data)
  }

  /** An attachment with an image entry: the line afterwards carries that entry's data URI. */
  lemma AttachmentInlined(line: string, cell: Option<Cell>)
    requires AttachmentsDefined(line, cell) && HtmlImgSource(line).Some?
    requires NamesAttachment(HtmlImgSource(line).value, cell)
    requires FirstImageKey(AttachmentBundle(HtmlImgSource(line).value, cell), 0).Some?
    ensures var b := AttachmentBundle(HtmlImgSource(line).value, cell);
      Contains(HandleAttachments(line, cell), DataUri(b[FirstImageKey(b, 0).value]))
  {
    var src := HtmlImgSource(line).value;
    ReplaceAllContainsRep(line, src, GetAttachmentData(src, cell));
  }

  // ---------------------------------------------------------------------------
  // Block-directive comments: `^<!--\s+(:::.*)\s+-->`

  /** The last position in `[lo, hi]` at which `\s+-->` matches. */
  function LastCloser(t: string, lo: nat, hi: int): (r: Option<nat>)
    decreases hi - lo + 1
    ensures r.Some? ==> lo <= r.value <= hi && r.value < |t| && IsSpace(t[r.value])
    ensures r.Some? ==> StartsAt(t, SkipSpace(t, r.value), "-->")
  {
    if hi < lo then None
    else if hi < |t| && IsSpace(t[hi]) && StartsAt(t, SkipSpace(t, hi), "-->") then Some(hi)
    else LastCloser(t, lo, hi - 1)
  }

  /** The range of group 1 of the directive-comment pattern in an already left-stripped line. */
  function CommentGroup(t: string): (r: Option<(nat, nat)>)
    ensures r.Some? ==> r.value.0 + 3 <= r.value.1 <= |t| && StartsAt(t, r.value.0, ":::")
    ensures r.Some? ==> forall k :: r.value.0 <= k < r.value.1 ==> t[k] != '\n'
  {
    if !StartsWith(t, "<!--") then None
    else
      var g := SkipSpace(t, 4);
      if g == 4 || !StartsAt(t, g, ":::") then None
      else
        match LastCloser(t, g + 3, LineEnd(t, g + 3))
        case None => None
        case Some(e) =>
          assert forall k :: g <= k < g + 3 ==> t[k] == t[g..g + 3][k - g];
          Some((g, e))
  }

  /** `<!-- ::: content -->` becomes `::: content`; a line that does not match is returned unchanged. */
  function BlockComment(s: string): (r: string)
    ensures CommentGroup(LStrip(s)).None? ==> r == s
    ensures !StartsWith(LStrip(s), "<!--") ==> r == s
    ensures CommentGroup(LStrip(s)).Some? ==> StartsWith(r, ":::") && '\n' !in r
    ensures CommentGroup(LStrip(s)).Some? ==>
      r == LStrip(s)[CommentGroup(LStrip(s)).value.0..CommentGroup(LStrip(s)).value.1]
  {
    var t := LStrip(s);
    match CommentGroup(t)
    case None => s
    case Some((g, e)) =>
      assert forall k :: g <= k < e ==> t[g..e][k - g] == t[k];
      t[g..e]
  }

  /** `<!-- ::: note -->` is already stripped and its group is `::: note`, which `BlockComment` returns. */
  lemma BlockCommentExamples()
    ensures LStrip("<!-- ::: note -->") == "<!-- ::: note -->"
    ensures CommentGroup("<!-- ::: note -->") == Some((5, 13)) && "<!-- ::: note -->"[5..13] == "::: note"
  {
    CommentSampleStripped();
    CommentSampleGroup();
    CommentSampleSlice();
  }

  lemma CommentSampleSlice()
    ensures "<!-- ::: note -->"[5..13] == "::: note"
  {
    var s := "<!-- ::: note -->";
    assert s == "<!-- " + "::: note" + " -->";
  }

  lemma CommentSampleStripped()
    ensures LStrip("<!-- ::: note -->") == "<!-- ::: note -->"
  {
    var s := "<!-- ::: note -->";
    assert s[0] == '<';
    assert SkipSpace(s, 0) == 0;
  }

  lemma CommentSampleGroup()
    ensures CommentGroup("<!-- ::: note -->") == Some((5, 13))
  {
    var s := "<!-- ::: note -->";
    assert StartsWith(s, "<!--") by { assert s[..4] == "<!--"; }
    assert SkipSpace(s, 4) == 5 by { assert s[4] == ' ' && s[5] == ':'; }
    assert StartsAt(s, 5, ":::") by { assert s[5..8] == ":::"; }
    CommentSampleCloser();
  }

  lemma CommentSampleCloser()
    ensures LastCloser("<!-- ::: note -->", 8, LineEnd("<!-- ::: note -->", 8)) == Some(13)
  {
    var s := "<!-- ::: note -->";
    assert |s| == 17;
    assert forall k :: 8 <= k < 17 ==> s[k] != '\n';
    assert LineEnd(s, 8) == 17;
    assert SkipSpace(s, 13) == 14 by { assert s[13] == ' ' && s[14] == '-'; }
    assert StartsAt(s, 14, "-->") by { assert s[14..17] == "-->"; }
    assert LastCloser(s, 8, 13) == Some(13);
    assert s[14] == '-' && s[15] == '-' && s[16] == '>';
    assert LastCloser(s, 8, 15) == Some(13);
    assert LastCloser(s, 8, 17) == Some(13);
  }

  // ---------------------------------------------------------------------------
  // Patterns of the form `^<prefix>.*]\((.*)\)`

  /**
   * For a line whose first `start` characters matched a fixed prefix: the
   * position of the `](` and of the closing `)`, as the greedy `.*` groups
   * choose them on the first line: the last `)` of the line, and the last `](`
   * that still leaves room for it.
   */
  function BracketParen(t: string, start: nat): (r: Option<(nat, nat)>)
    requires start <= |t|
    ensures r.Some? ==> start <= r.value.0 && r.value.0 + 2 <= r.value.1 < |t|
    ensures r.Some? ==> StartsAt(t, r.value.0, "](") && t[r.value.1] == ')'
    ensures r.Some? ==> forall k :: start <= k <= r.value.1 ==> t[k] != '\n'
    ensures r.Some? ==> forall j: nat :: r.value.0 < j <= r.value.1 - 2 ==> !StartsAt(t, j, "](")
  {
    var e := LineEnd(t, start);
    match LastBetween(t, ")", start, e - 1)
    case None => None
    case Some(b) =>
      assert t[b..b + 1] == ")";
      match LastBetween(t, "](", start, b - 2)
      case None => None
      case Some(a) => Some((a, b))
  }

  /** A slice of one line holds no line feed. */
  lemma SliceWithinLine(t: string, lo: nat, hi: nat)
    requires lo <= hi <= |t| && forall k :: lo <= k < hi ==> t[k] != '\n'
    ensures '\n' !in t[lo..hi]
  {
    assert forall k :: 0 <= k < hi - lo ==> t[lo..hi][k] == t[lo + k];
  }

  function HeroPath(s: string): (r: Option<string>)
    ensures r.Some? ==> '\n' !in r.value
  {
    var t := LStrip(s);
    if !StartsWith(t, "![hero:") then None
    else
      match BracketParen(t, 7)
      case None => None
      case Some((a, b)) =>
        SliceWithinLine(t, a + 2, b);
        Some(t[a + 2..b])
  }

  /** `![hero:alt](path)` becomes `> hero: path`; anything else is returned unchanged. */
  function HeroImage(s: string): (r: string)
    ensures HeroPath(s).None? ==> r == s
    ensures HeroPath(s).Some? ==> r == "> hero: " + HeroPath(s).value
    ensures !StartsWith(LStrip(s), "![hero:") ==> r == s
  {
    match HeroPath(s)
    case None => s
    case Some(p) => "> hero: " + p
  }

  /** The path of `![hero:x](a.png)` is `a.png`, so `HeroImage` turns the line into `> hero: a.png`. */
  lemma HeroImageExample()
    ensures HeroPath("![hero:x](a.png)") == Some("a.png")
  {
    var s := "![hero:x](a.png)";
    HeroSampleStripped();
    HeroSampleStarts();
    HeroSampleBrackets();
    assert s[10..15] == "a.png";
  }

  lemma HeroSampleStarts()
    ensures StartsWith("![hero:x](a.png)", "![hero:")
  {
    var s := "![hero:x](a.png)";
    assert s == "![hero:" + "x](a.png)";
    assert s[0..7] == "![hero:";
  }

  lemma HeroSampleStripped()
    ensures LStrip("![hero:x](a.png)") == "![hero:x](a.png)"
  {
    var s := "![hero:x](a.png)";
    assert s[0] == '!';
    assert SkipSpace(s, 0) == 0;
  }

  lemma HeroSampleBrackets()
    ensures BracketParen("![hero:x](a.png)", 7) == Some((8, 15))
  {
    var s := "![hero:x](a.png)";
    assert |s| == 16;
    assert forall k :: 7 <= k < 16 ==> s[k] != '\n';
    assert LineEnd(s, 7) == 16;
    assert StartsAt(s, 15, ")") by { assert s[15..16] == ")"; }
    assert LastBetween(s, ")", 7, 15) == Some(15);
    assert StartsAt(s, 8, "](") by { assert s[8..10] == "]("; }
    var r := LastBetween(s, "](", 7, 13);
    assert r.Some? && 8 <= r.value <= 13;
    assert s[r.value..r.value + 2][0] == s[r.value] == ']';
    assert forall k :: 9 <= k <= 13 ==> s[k] != ']';
  }

  function VueName(s: string): (r: Option<string>)
    ensures r.Some? ==> '\n' !in r.value
  {
    var t := LStrip(s);
    if !StartsWith(t, "![vue:") then None
    else
      match BracketParen(t, 6)
      case None => None
      case Some((a, b)) =>
        SliceWithinLine(t, 6, a);
        Some(t[6..a])
  }

  /** `![vue:name](...)` becomes the component name on its own indented line; anything else is unchanged. */
  function VueComponent(s: string): (r: string)
    ensures VueName(s).None? ==> r == s
    ensures VueName(s).Some? ==> r == "\n    " + VueName(s).value + "\n        "
    ensures !StartsWith(LStrip(s), "![vue:") ==> r == s
  {
    match VueName(s)
    case None => s
    case Some(name) => "\n    " + name + "\n        "
  }

  function ImagePath(s: string): (r: Option<string>)
    ensures r.Some? ==> '\n' !in r.value
  {
    var t := LStrip(s);
    if !StartsWith(t, "![") then None
    else
      match BracketParen(t, 2)
      case None => None
      case Some((a, b)) =>
        SliceWithinLine(t, a + 2, b);
        Some(t[a + 2..b])
  }

  predicate ImageDefined(s: string, cell: Option<Cell>) {
    ImagePath(s).Some? ==> AttachmentDefined(ImagePath(s).value, cell)
  }

  /** `![alt](path)` becomes an indented `figure: x-img(src="...")` with the path resolved; anything else is unchanged. */
  function HandleImages(s: string, cell: Option<Cell>): (r: string)
    requires ImageDefined(s, cell)
    ensures ImagePath(s).None? ==> r == s
    ensures ImagePath(s).Some? ==>
      r == "\n    figure: x-img(src=\"" + GetAttachmentData(ImagePath(s).value, cell) + "\")\n        "
    ensures ImagePath(s).Some? && !NamesAttachment(ImagePath(s).value, cell) ==>
      r == "\n    figure: x-img(src=\"" + ImagePath(s).value + "\")\n        "
  {
    match ImagePath(s)
    case None => s
    case Some(p) => "\n    figure: x-img(src=\"" + GetAttachmentData(p, cell) + "\")\n        "
  }
}
