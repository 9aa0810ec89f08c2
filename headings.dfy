/**
 * The heading builder: from one heading line it computes the heading's id,
 * level and title and the text that replaces the line.
 */
module Headings {
  import opened Wrappers
  import opened Strings
  import Inline

  /** `(id, level, title, text)`; `id` and `level` are `None` inside a directive block. */
  datatype HeadingResult = HeadingResult(id: Option<string>, level: Option<nat>, title: string, text: string)

  /** The positional suffix `-<cell>-<line>` the scanner passes in. */
  function Suffix(cellNumber: nat, lineNumber: nat): string {
    "-" + NatToString(cellNumber) + "-" + NatToString(lineNumber)
  }

  /** The number of `#` in the text before the first space. */
  function Level(hs: string): (level: nat)
    ensures level <= |hs|
  {
    CountAtMostLength('#', BeforeFirst(hs, " "));
    Count('#', BeforeFirst(hs, " "))
  }

  // ---------------------------------------------------------------------------
  // `(<.*\sid=["\'])(.*)(["\'])`

  predicate IsQuote(c: char) {
    c == '"' || c == '\''
  }

  /** The last quote in `[lo, hi]`. */
  function LastQuote(t: string, lo: nat, hi: int): (r: Option<nat>)
    decreases hi - lo + 1
    ensures r.Some? ==> lo <= r.value <= hi && r.value < |t| && IsQuote(t[r.value])
  {
    if hi < lo then None
    else if hi < |t| && IsQuote(t[hi]) then Some(hi)
    else LastQuote(t, lo, hi - 1)
  }

  /** `\sid=` and a quote start at `p`, and a closing quote follows on the same line. */
  predicate IdAttrAt(t: string, p: nat) {
    && p + 5 <= |t|
    && IsSpace(t[p]) && StartsAt(t, p + 1, "id=") && IsQuote(t[p + 4])
    && LastQuote(t, p + 5, LineEnd(t, p + 5) - 1).Some?
  }

  function LastIdAttr(t: string, lo: nat, hi: int): (r: Option<nat>)
    decreases hi - lo + 1
    ensures r.Some? ==> lo <= r.value <= hi && IdAttrAt(t, r.value)
  {
    if hi < lo then None
    else if IdAttrAt(t, hi) then Some(hi)
    else LastIdAttr(t, lo, hi - 1)
  }

  /** A match starting at the `<` at `i`: the greedy `.*` picks the last attribute, the id runs to the last quote. */
  function TagIdAt(t: string, i: nat): (r: Option<(nat, nat, nat)>)
    requires i < |t|
    ensures r.Some? ==> r.value.0 == i < r.value.1 <= r.value.2 < |t|
  {
    match LastIdAttr(t, i + 1, LineEnd(t, i + 1))
    case None => None
    case Some(p) => Some((i, p + 5, LastQuote(t, p + 5, LineEnd(t, p + 5) - 1).value))
  }

  function TagIdFrom(t: string, i: nat): (r: Option<(nat, nat, nat)>)
    decreases |t| - i
    ensures r.Some? ==> i <= r.value.0 < r.value.1 <= r.value.2 < |t| && t[r.value.0] == '<'
  {
    if i >= |t| then None
    else if t[i] == '<' && TagIdAt(t, i).Some? then TagIdAt(t, i)
    else TagIdFrom(t, i + 1)
  }

  /** The leftmost match of the explicit-id pattern: where it starts and where group 2 lies. */
  function TagId(t: string): (r: Option<(nat, nat, nat)>)
    ensures r.Some? ==> r.value.0 < r.value.1 <= r.value.2 < |t| && t[r.value.0] == '<'
  {
    TagIdFrom(t, 0)
  }

  // ---------------------------------------------------------------------------
  // Ids

  /** The first hyphen-separated segment of a slug, cut to 25 characters. */
  function Stem(slug: string): (r: string)
    ensures |r| <= 25 && '-' !in r
  {
    var s := BeforeFirst(slug, "-");
    BeforeFirstExcludes(slug, '-');
    if |s| <= 25 then s else s[..25]
  }

  /** An id made of a hyphen-free prefix of at most 25 characters followed by the positional suffix. */
  predicate PositionalId(id: string, suffix: string) {
    && |suffix| <= |id|
    && id[|id| - |suffix|..] == suffix
    && '-' !in id[..|id| - |suffix|]
    && |id| - |suffix| <= 25
  }

  /** The branch that synthesises a positional id. */
  predicate DefaultBranch(hs: string, inBlock: bool, suffix: string, isProblemSet: bool) {
    && !inBlock
    && TagId(hs).None?
    && Level(hs) != 1
    && !Contains(suffix, "-0-0")
    && !(Level(hs) == 2 && isProblemSet)
  }

  /** The title: the text after the first space, with its inline code tagged. */
  function HeadingTitle(hs: string): string {
    Inline.InlineCodeOf(AfterFirst(hs, " "))
  }

  /** The id slug without an `id=` attribute: the section if it is set, else the title lower-cased and hyphenated, without other characters. */
  function DefaultSlug(hs: string, section: Option<string>): (slug: string)
    ensures forall k :: 0 <= k < |slug| ==> IsWordChar(slug[k]) || slug[k] == '-'
  {
    KeepWordOrHyphen(if section.Some? && section.value != "" then section.value
                     else SpacesToHyphens(Lower(Strip(HeadingTitle(hs)))))
  }

  /** The HTML heading `<hN>body\n</hN>\n`. */
  function HtmlHeading(level: nat, body: string): string {
    "<h" + NatToString(level) + ">" + body + "\n</h" + NatToString(level) + ">\n"
  }

  /** `handle_heading`. */
  function HandleHeading(hs: string, inBlock: bool, suffix: string, section: Option<string>, isProblemSet: bool)
    : (r: HeadingResult)
    requires Contains(hs, " ")
    // Inside a directive block: no id, no level, the title as is, and one more `#`.
    ensures inBlock ==> r.id.None? && r.level.None? && r.title == HeadingTitle(hs) && r.text == "#" + hs + "\n"
    ensures !inBlock ==> r.id.Some? && r.level == Some(Level(hs))
    // Without an `id=` attribute.
    ensures !inBlock && TagId(hs).None? ==> r.title == Strip(HeadingTitle(hs))
    ensures !inBlock && TagId(hs).None? && (Level(hs) == 1 || Contains(suffix, "-0-0")) ==>
      r.id == Some(DefaultSlug(hs, section))
    ensures !inBlock && TagId(hs).None? && Level(hs) == 1 ==> r.text == if isProblemSet then hs else "#" + hs + "\n"
    ensures !inBlock && Level(hs) != 1 && Contains(suffix, "-0-0") ==> r.text == "## " + AfterFirst(hs, " ") + "\n"
    ensures !inBlock && TagId(hs).None? && Level(hs) == 2 && isProblemSet && !Contains(suffix, "-0-0") ==>
      && r.id == Some(SpacesToHyphens(Lower(Strip(AfterFirst(hs, " ")))))
      && r.text == "\n---\n\n> section: " + r.id.value + "\n\n## " + AfterFirst(hs, " ") + "\n"
    ensures DefaultBranch(hs, inBlock, suffix, isProblemSet) ==>
      && r.id == Some(Stem(DefaultSlug(hs, section)) + suffix)
      && PositionalId(r.id.value, suffix)
      && r.text == HtmlHeading(Level(hs), HeadingTitle(hs) + " <a id=\"" + r.id.value + "\"></a>")
    // With an `id=` attribute: its value, the text before the tag as title.
    ensures !inBlock && TagId(hs).Some? ==>
      && r.id == Some(hs[TagId(hs).value.1..TagId(hs).value.2])
      && r.title == Strip(AfterFirst(hs[..TagId(hs).value.0], " "))
      && r.text == (if Level(hs) == 1 then "#" + hs + "\n"
                    else if Contains(suffix, "-0-0") then "## " + AfterFirst(hs, " ") + "\n"
                    else HtmlHeading(Level(hs), hs[Level(hs)..]))
  {
    var title := HeadingTitle(hs);
    var level := Level(hs);
    var rest := AfterFirst(hs, " ");
    if inBlock then HeadingResult(None, None, title, "#" + hs + "\n")
    else
      match TagId(hs)
      case None =>
        var slug := DefaultSlug(hs, section);
        if level == 1 then
          HeadingResult(Some(slug), Some(level), Strip(title), if isProblemSet then hs else "#" + hs + "\n")
        else if Contains(suffix, "-0-0") then
          HeadingResult(Some(slug), Some(level), Strip(title), "## " + rest + "\n")
        else if level == 2 && isProblemSet then
          var sid := SpacesToHyphens(Lower(Strip(rest)));
          HeadingResult(Some(sid), Some(level), Strip(title), "\n---\n\n> section: " + sid + "\n\n## " + rest + "\n")
        else
          var stem := Stem(slug);
          var id := stem + suffix;
          assert id[..|id| - |suffix|] == stem;
          HeadingResult(Some(id), Some(level), Strip(title), HtmlHeading(level, title + " <a id=\"" + id + "\"></a>"))
      case Some((start, a, b)) =>
        var text :=
          if level == 1 then "#" + hs + "\n"
          else if Contains(suffix, "-0-0") then "## " + rest + "\n"
          else HtmlHeading(level, hs[level..]);
        HeadingResult(Some(hs[a..b]), Some(level), Strip(AfterFirst(hs[..start], " ")), text)
  }

  // ---------------------------------------------------------------------------
  // Properties of the positional suffix and of synthesised ids

  /** Inside a suffix, `-` sits only at the front and between the two numbers. */
  lemma SuffixDashes(c: nat, l: nat)
    ensures forall k :: 0 < k < |Suffix(c, l)| && k != |NatToString(c)| + 1 ==> Suffix(c, l)[k] != '-'
  {
    var a, b := NatToString(c), NatToString(l);
    forall k | 0 < k < |Suffix(c, l)| && k != |a| + 1
      ensures Suffix(c, l)[k] != '-'
    {
      if k <= |a| {
        assert Suffix(c, l)[k] == a[k - 1];
      } else {
        assert Suffix(c, l)[k] == b[k - |a| - 2];
      }
    }
  }

  /** `"-0-0" in suffix` holds exactly for the first line of the first cell. */
  lemma SuffixFirstPosition(c: nat, l: nat)
    ensures Contains(Suffix(c, l), "-0-0") <==> c == 0 && l == 0
  {
    var a, b := NatToString(c), NatToString(l);
    var s := Suffix(c, l);
    if c == 0 && l == 0 {
      assert s == "-0-0";
      assert StartsAt(s, 0, "-0-0");
    }
    if Contains(s, "-0-0") {
      var j :| 0 <= j <= |s| - 4 && StartsAt(s, j, "-0-0");
      assert s[j..j + 4] == "-0-0";
      assert s[j] == s[j..j + 4][0] == '-';
      assert s[j + 1] == s[j..j + 4][1] == '0';
      assert s[j + 2] == s[j..j + 4][2] == '-';
      assert s[j + 3] == s[j..j + 4][3] == '0';
      SuffixDashes(c, l);
      assert j == 0;
      assert |a| == 1;
      assert a[0] == s[1] == '0';
      assert b[0] == s[3] == '0';
      NatToStringLeadingDigit(c);
      NatToStringLeadingDigit(l);
    }
  }

  /** A first separator cannot come earlier on one side than on the other. */
  lemma SeparatorNotEarlier(a1: string, b1: string, a2: string, b2: string, c: char)
    requires c !in a2
    requires a1 + [c] + b1 == a2 + [c] + b2
    ensures |a1| >= |a2|
  {
    var s := a1 + [c] + b1;
    assert s[|a1|] == c;
    assert forall k :: 0 <= k < |a2| ==> s[k] == a2[k];
  }

  /** Two strings that agree around a first separator agree on both sides of it. */
  lemma SplitAtSeparator(a1: string, b1: string, a2: string, b2: string, c: char)
    requires c !in a1 && c !in a2
    requires a1 + [c] + b1 == a2 + [c] + b2
    ensures a1 == a2 && b1 == b2
  {
    var s := a1 + [c] + b1;
    SeparatorNotEarlier(a1, b1, a2, b2, c);
    SeparatorNotEarlier(a2, b2, a1, b1, c);
    assert a1 == s[..|a1|] == a2;
    assert b1 == s[|a1| + 1..] == b2;
  }

  lemma SuffixInjective(c1: nat, l1: nat, c2: nat, l2: nat)
    requires Suffix(c1, l1) == Suffix(c2, l2)
    ensures c1 == c2 && l1 == l2
  {
    var a1, b1, a2, b2 := NatToString(c1), NatToString(l1), NatToString(c2), NatToString(l2);
    assert a1 + ['-'] + b1 == Suffix(c1, l1)[1..];
    assert a2 + ['-'] + b2 == Suffix(c2, l2)[1..];
    assert '-' !in a1 && '-' !in a2;
    SplitAtSeparator(a1, b1, a2, b2, '-');
    NatToStringInjective(c1, c2);
    NatToStringInjective(l1, l2);
  }

  /** Positional ids of headings at different positions differ, whatever their titles. */
  lemma DistinctPositionsDistinctIds(id1: string, id2: string, c1: nat, l1: nat, c2: nat, l2: nat)
    requires PositionalId(id1, Suffix(c1, l1)) && PositionalId(id2, Suffix(c2, l2))
    requires c1 != c2 || l1 != l2
    ensures id1 != id2
  {
    var s1, s2 := Suffix(c1, l1), Suffix(c2, l2);
    if id1 == id2 {
      var p1, p2 := id1[..|id1| - |s1|], id2[..|id2| - |s2|];
      assert id1 == p1 + ['-'] + s1[1..];
      assert id2 == p2 + ['-'] + s2[1..];
      SplitAtSeparator(p1, s1[1..], p2, s2[1..], '-');
      assert s1 == s2;
      SuffixInjective(c1, l1, c2, l2);
      assert false;
    }
  }

  /** Headings in the default branch at different positions receive different ids. */
  lemma DefaultIdsDistinct(hs1: string, c1: nat, l1: nat, hs2: string, c2: nat, l2: nat,
                           section: Option<string>, isProblemSet: bool)
    requires Contains(hs1, " ") && Contains(hs2, " ")
    requires DefaultBranch(hs1, false, Suffix(c1, l1), isProblemSet)
    requires DefaultBranch(hs2, false, Suffix(c2, l2), isProblemSet)
    requires c1 != c2 || l1 != l2
    ensures HandleHeading(hs1, false, Suffix(c1, l1), section, isProblemSet).id
         != HandleHeading(hs2, false, Suffix(c2, l2), section, isProblemSet).id
  {
    var r1 := HandleHeading(hs1, false, Suffix(c1, l1), section, isProblemSet);
    var r2 := HandleHeading(hs2, false, Suffix(c2, l2), section, isProblemSet);
    DistinctPositionsDistinctIds(r1.id.value, r2.id.value, c1, l1, c2, l2);
  }
}
