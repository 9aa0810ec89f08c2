/**
 * Character classes and the Python `str` operations the converter is built from:
 * prefix and suffix tests, searching, `strip`, `replace`, `split` and `join`,
 * and the decimal rendering of line and cell numbers.
 */
module Strings {
  import opened Wrappers

  /** `str.isspace()`, which is also the regular-expression class `\s` on text patterns. */
  predicate IsSpace(c: char) {
    var n := c as int;
    n == 32 || 9 <= n <= 13 || 28 <= n <= 31 || n == 0x85 || n == 0xA0 || n == 0x1680
    || 0x2000 <= n <= 0x200A || n == 0x2028 || n == 0x2029 || n == 0x202F || n == 0x205F || n == 0x3000
  }

  predicate IsAsciiLetter(c: char) {
    'a' <= c <= 'z' || 'A' <= c <= 'Z'
  }

  predicate IsDigit(c: char) {
    '0' <= c <= '9'
  }

  /** The regular-expression class `\w`, restricted to ASCII. */
  predicate IsWordChar(c: char) {
    IsAsciiLetter(c) || IsDigit(c) || c == '_'
  }

  // ---------------------------------------------------------------------------
  // Prefixes, suffixes and searching

  predicate StartsAt(s: string, i: nat, p: string) {
    i + |p| <= |s| && s[i..i + |p|] == p
  }

  predicate StartsWith(s: string, p: string) {
    StartsAt(s, 0, p)
  }

  predicate EndsWith(s: string, p: string) {
    |p| <= |s| && s[|s| - |p|..] == p
  }

  /** Python's `p in s`. */
  predicate Contains(s: string, p: string) {
    exists j :: 0 <= j <= |s| - |p| && StartsAt(s, j, p)
  }

  /** The first occurrence of `p` at or after `from` (`str.find`). */
  function FindFrom(s: string, p: string, from: nat): (r: Option<nat>)
    decreases |s| - from
    ensures r.Some? ==> from <= r.value && StartsAt(s, r.value, p)
    ensures r.Some? ==> forall j: nat :: from <= j < r.value ==> !StartsAt(s, j, p)
    ensures r.None? ==> forall j: nat :: from <= j ==> !StartsAt(s, j, p)
  {
    if from + |p| > |s| then None
    else if StartsAt(s, from, p) then Some(from)
    else FindFrom(s, p, from + 1)
  }

  lemma FindFromContains(s: string, p: string)
    ensures FindFrom(s, p, 0).Some? <==> Contains(s, p)
  {
    var r := FindFrom(s, p, 0);
    if r.Some? {
      assert StartsAt(s, r.value, p);
    }
  }

  /**
   * The first occurrence of `p` at or after `from` that a lazy `.*?` starting
   * at `from` can reach: the text skipped over holds no line feed.
   */
  function FindInLine(s: string, p: string, from: nat): (r: Option<nat>)
    decreases |s| - from
    ensures r.Some? ==> from <= r.value && StartsAt(s, r.value, p)
    ensures r.Some? ==> forall k :: from <= k < r.value ==> s[k] != '\n'
  {
    if from + |p| > |s| then None
    else if StartsAt(s, from, p) then Some(from)
    else if s[from] == '\n' then None
    else FindInLine(s, p, from + 1)
  }

  /** The end of the line that holds position `from`: where a greedy `.*` starting there stops. */
  function LineEnd(s: string, from: nat): (e: nat)
    requires from <= |s|
    decreases |s| - from
    ensures from <= e <= |s|
    ensures forall k :: from <= k < e ==> s[k] != '\n'
    ensures e < |s| ==> s[e] == '\n'
  {
    if from == |s| || s[from] == '\n' then from else LineEnd(s, from + 1)
  }

  /** The last occurrence of `p` starting in `[lo, hi]`. */
  function LastBetween(s: string, p: string, lo: nat, hi: int): (r: Option<nat>)
    decreases hi - lo + 1
    ensures r.Some? ==> lo <= r.value <= hi && StartsAt(s, r.value, p)
    ensures r.Some? ==> forall j: nat :: r.value < j <= hi ==> !StartsAt(s, j, p)
    ensures r.None? ==> forall j: nat :: lo <= j <= hi ==> !StartsAt(s, j, p)
  {
    if hi < lo then None
    else if StartsAt(s, hi, p) then Some(hi)
    else LastBetween(s, p, lo, hi - 1)
  }

  // ---------------------------------------------------------------------------
  // Stripping

  /** The first position at or after `i` that is not whitespace. */
  function SkipSpace(s: string, i: nat): (j: nat)
    requires i <= |s|
    decreases |s| - i
    ensures i <= j <= |s|
    ensures forall k :: i <= k < j ==> IsSpace(s[k])
    ensures j < |s| ==> !IsSpace(s[j])
  {
    if i == |s| || !IsSpace(s[i]) then i else SkipSpace(s, i + 1)
  }

  /** `str.lstrip()`. */
  function LStrip(s: string): (r: string)
    ensures |r| <= |s| && r == s[|s| - |r|..]
    ensures r == [] || !IsSpace(r[0])
    ensures forall k :: 0 <= k < |s| - |r| ==> IsSpace(s[k])
  {
    s[SkipSpace(s, 0)..]
  }

  /** `str.rstrip()`. */
  function RStrip(s: string): (r: string)
    ensures |r| <= |s| && r == s[..|r|]
    ensures r == [] || !IsSpace(r[|r| - 1])
    ensures forall k :: |r| <= k < |s| ==> IsSpace(s[k])
  {
    if |s| > 0 && IsSpace(s[|s| - 1]) then RStrip(s[..|s| - 1]) else s
  }

  /** `str.rstrip(chars)`. */
  function RStripChars(s: string, chars: set<char>): (r: string)
    ensures |r| <= |s| && r == s[..|r|]
    ensures r == [] || r[|r| - 1] !in chars
    ensures forall k :: |r| <= k < |s| ==> s[k] in chars
  {
    if |s| > 0 && s[|s| - 1] in chars then RStripChars(s[..|s| - 1], chars) else s
  }

  /** `str.strip()`. */
  function Strip(s: string): string {
    RStrip(LStrip(s))
  }

  // ---------------------------------------------------------------------------
  // Counting, replacing, splitting and joining

  function Count(c: char, s: string): nat {
    if s == [] then 0 else (if s[0] == c then 1 else 0) + Count(c, s[1..])
  }

  lemma CountConcat(c: char, a: string, b: string)
    ensures Count(c, a + b) == Count(c, a) + Count(c, b)
  {
    if a != [] {
      assert (a + b)[1..] == a[1..] + b;
      CountConcat(c, a[1..], b);
    } else {
      assert a + b == b;
    }
  }

  lemma CountZero(c: char, s: string)
    ensures Count(c, s) == 0 <==> c !in s
  {
    if s != [] {
      CountZero(c, s[1..]);
      assert s == [s[0]] + s[1..];
    }
  }

  /** `s.replace(pat, rep)` for a non-empty `pat`: every occurrence, left to right, without overlaps. */
  function ReplaceAll(s: string, pat: string, rep: string): string
    requires |pat| > 0
    decreases |s|
  {
    if |s| < |pat| then s
    else if s[..|pat|] == pat then rep + ReplaceAll(s[|pat|..], pat, rep)
    else [s[0]] + ReplaceAll(s[1..], pat, rep)
  }

  /** Replacing a pattern by text with as many `c` keeps the number of `c`. */
  lemma {:induction false} ReplaceAllCount(c: char, s: string, pat: string, rep: string)
    requires |pat| > 0 && Count(c, pat) == Count(c, rep)
    ensures Count(c, ReplaceAll(s, pat, rep)) == Count(c, s)
    decreases |s|
  {
    if |s| < |pat| {
    } else if s[..|pat|] == pat {
      var rest := s[|pat|..];
      ReplaceAllCount(c, rest, pat, rep);
      CountConcat(c, rep, ReplaceAll(rest, pat, rep));
      assert s == pat + rest;
      CountConcat(c, pat, rest);
    } else {
      ReplaceAllCount(c, s[1..], pat, rep);
      CountConcat(c, [s[0]], ReplaceAll(s[1..], pat, rep));
      assert s == [s[0]] + s[1..];
      CountConcat(c, [s[0]], s[1..]);
    }
  }

  /** Text that does not contain the pattern is returned unchanged. */
  lemma {:induction false} ReplaceAllAbsent(s: string, pat: string, rep: string)
    requires |pat| > 0 && !Contains(s, pat)
    ensures ReplaceAll(s, pat, rep) == s
    decreases |s|
  {
    if |s| >= |pat| {
      assert !StartsAt(s, 0, pat);
      forall j | 0 <= j <= |s| - 1 - |pat|
        ensures !StartsAt(s[1..], j, pat)
      {
        assert s[1..][j..j + |pat|] == s[j + 1..j + 1 + |pat|];
        assert !StartsAt(s, j + 1, pat);
      }
      ReplaceAllAbsent(s[1..], pat, rep);
    }
  }

  /** A character absent from the text and from the replacement stays absent. */
  lemma ReplaceAllKeepsAbsent(c: char, s: string, pat: string, rep: string)
    requires |pat| > 0 && c !in s && c !in rep
    ensures c !in ReplaceAll(s, pat, rep)
  {
    CountZero(c, s);
    CountZero(c, rep);
    if Count(c, pat) == 0 {
      ReplaceAllCount(c, s, pat, rep);
      CountZero(c, ReplaceAll(s, pat, rep));
    } else {
      CountZero(c, pat);
      var k :| 0 <= k < |pat| && pat[k] == c;
      forall j | 0 <= j <= |s| - |pat|
        ensures !StartsAt(s, j, pat)
      {
        assert s[j + k] != c;
        assert s[j..j + |pat|][k] == s[j + k];
      }
      ReplaceAllAbsent(s, pat, rep);
    }
  }

  /** Replacing a pattern by itself changes nothing. */
  lemma {:induction false} ReplaceAllIdentity(s: string, pat: string)
    requires |pat| > 0
    ensures ReplaceAll(s, pat, pat) == s
    decreases |s|
  {
    if |s| >= |pat| {
      if s[..|pat|] == pat {
        ReplaceAllIdentity(s[|pat|..], pat);
        assert s == pat + s[|pat|..];
      } else {
        ReplaceAllIdentity(s[1..], pat);
        assert s == [s[0]] + s[1..];
      }
    }
  }

  /** A pattern whose first character is absent from the text does not occur in it. */
  lemma AbsentFirstNotContained(s: string, p: string)
    requires |p| > 0 && p[0] !in s
    ensures !Contains(s, p)
  {
    forall j | 0 <= j <= |s| - |p| ensures !StartsAt(s, j, p) {
      assert s[j..j + |p|][0] == s[j];
    }
  }

  /** A text contains each of its infixes. */
  lemma ContainsInfix(a: string, x: string, b: string)
    ensures Contains(a + x + b, x)
  {
    assert (a + x + b)[|a|..|a| + |x|] == x;
    assert StartsAt(a + x + b, |a|, x);
  }

  /** A text that is exactly the pattern becomes the replacement. */
  lemma ReplaceAllWhole(s: string, rep: string)
    requires |s| > 0
    ensures ReplaceAll(s, s, rep) == rep
  {
    assert s[..|s|] == s;
    assert s[|s|..] == [];
    assert ReplaceAll(s, s, rep) == rep + ReplaceAll([], s, rep);
  }

  /** Once the pattern occurs, its replacement occurs in the result. */
  lemma ReplaceAllContainsRep(s: string, pat: string, rep: string)
    requires |pat| > 0 && Contains(s, pat)
    ensures Contains(ReplaceAll(s, pat, rep), rep)
  {
    var j :| 0 <= j <= |s| - |pat| && StartsAt(s, j, pat);
    ReplaceAllContainsRepAt(s, pat, rep, j);
  }

  lemma {:induction false} ReplaceAllContainsRepAt(s: string, pat: string, rep: string, j: nat)
    requires |pat| > 0 && StartsAt(s, j, pat)
    ensures Contains(ReplaceAll(s, pat, rep), rep)
    decreases |s|
  {
    var r := ReplaceAll(s, pat, rep);
    if s[..|pat|] == pat {
      var t := ReplaceAll(s[|pat|..], pat, rep);
      assert r == rep + t;
      assert r[0..|rep|] == rep;
      assert StartsAt(r, 0, rep);
    } else {
      assert j > 0;
      assert s[1..][j - 1..j - 1 + |pat|] == s[j..j + |pat|];
      ReplaceAllContainsRepAt(s[1..], pat, rep, j - 1);
      var t := ReplaceAll(s[1..], pat, rep);
      assert r == [s[0]] + t;
      ContainsConsRight(s[0], t, rep);
    }
  }

  /** An occurrence in `t` is one in `[a] + t`. */
  lemma ContainsConsRight(a: char, t: string, q: string)
    requires Contains(t, q)
    ensures Contains([a] + t, q)
  {
    var i :| 0 <= i <= |t| - |q| && StartsAt(t, i, q);
    assert ([a] + t)[i + 1..i + 1 + |q|] == t[i..i + |q|];
    assert StartsAt([a] + t, i + 1, q);
  }

  /** Joined parts contain each part. */
  lemma {:induction false} ConcatContainsPart(parts: seq<string>, k: nat)
    requires k < |parts|
    ensures Contains(Concat(parts), parts[k])
    decreases k
  {
    var rest := Concat(parts[1..]);
    if k == 0 {
      ContainsInfix([], parts[0], rest);
      assert [] + parts[0] + rest == parts[0] + rest;
    } else {
      ConcatContainsPart(parts[1..], k - 1);
      var j :| 0 <= j <= |rest| - |parts[k]| && StartsAt(rest, j, parts[k]);
      assert (parts[0] + rest)[|parts[0]| + j..|parts[0]| + j + |parts[k]|] == rest[j..j + |parts[k]|];
      assert StartsAt(parts[0] + rest, |parts[0]| + j, parts[k]);
    }
  }

  /** An occurrence in `[a] + t` is at the front or inside `t`. */
  lemma ContainsCons(a: char, t: string, q: string)
    requires |q| > 0 && Contains([a] + t, q)
    ensures StartsWith([a] + t, q) || Contains(t, q)
  {
    var s := [a] + t;
    var j :| 0 <= j <= |s| - |q| && StartsAt(s, j, q);
    if j > 0 {
      assert s[j..j + |q|] == t[j - 1..j - 1 + |q|];
      assert StartsAt(t, j - 1, q);
    }
  }

  /** Replacing a one-character pattern keeps a prefix that does not hold that character. */
  lemma {:induction false} ReplaceAllKeepsPrefix(s: string, q: string, pat: string, rep: string)
    requires |pat| == 1 && StartsWith(s, q) && pat[0] !in q
    ensures StartsWith(ReplaceAll(s, pat, rep), q)
    decreases |q|
  {
    if q != [] {
      assert s[0] == s[..|q|][0] == q[0];
      assert s[..1] != pat by { assert s[..1][0] == q[0]; }
      assert StartsWith(s[1..], q[1..]) by { assert s[1..][..|q| - 1] == s[..|q|][1..]; }
      ReplaceAllKeepsPrefix(s[1..], q[1..], pat, rep);
      var t := ReplaceAll(s[1..], pat, rep);
      assert ReplaceAll(s, pat, rep) == [s[0]] + t;
      assert ([s[0]] + t)[..|q|] == [s[0]] + t[..|q| - 1];
      assert q == [q[0]] + q[1..];
    }
  }

  /** Indenting every line feed and then taking the indentation out again gives the text back. */
  lemma {:induction false} IndentRoundTrip(v: string, p: string)
    requires '\n' !in p
    ensures ReplaceAll(ReplaceAll(v, "\n", "\n" + p), "\n" + p, "\n") == v
    decreases |v|
  {
    var pat := "\n" + p;
    if v != [] {
      var x := ReplaceAll(v[1..], "\n", pat);
      IndentRoundTrip(v[1..], p);
      if v[0] == '\n' {
        assert v[..1] == "\n";
        assert (pat + x)[..|pat|] == pat;
        assert (pat + x)[|pat|..] == x;
        assert v == "\n" + v[1..];
      } else {
        assert v[..1] != "\n";
        var e := [v[0]] + x;
        assert e[1..] == x;
        if |e| >= |pat| {
          assert e[..|pat|][0] != pat[0];
        } else {
          assert ReplaceAll(x, pat, "\n") == x;
        }
        assert v == [v[0]] + v[1..];
      }
    }
  }

  /** Deleting every `cc` leaves no `cc` behind. */
  lemma {:induction false} RemovePairsLeavesNone(s: string, c: char)
    ensures !Contains(ReplaceAll(s, [c, c], []), [c, c])
    decreases |s|
  {
    if |s| >= 2 {
      if s[..2] == [c, c] {
        RemovePairsLeavesNone(s[2..], c);
        assert ReplaceAll(s, [c, c], []) == ReplaceAll(s[2..], [c, c], []);
      } else {
        var t := ReplaceAll(s[1..], [c, c], []);
        RemovePairsLeavesNone(s[1..], c);
        if s[0] == c {
          assert s[1] != c;
          if |s[1..]| >= 2 {
            assert s[1..][..2] != [c, c];
          }
          assert t[0] == s[1];
        }
        if Contains([s[0]] + t, [c, c]) {
          ContainsCons(s[0], t, [c, c]);
          assert false;
        }
      }
    }
  }

  /** Replacing a one-character pattern by text without that character removes it. */
  lemma {:induction false} ReplaceAllRemovesChar(s: string, c: char, rep: string)
    requires c !in rep
    ensures c !in ReplaceAll(s, [c], rep)
    decreases |s|
  {
    if |s| >= 1 {
      ReplaceAllRemovesChar(s[1..], c, rep);
      if s[..1] != [c] {
        assert s[0] != c;
      }
    }
  }

  /** `s.replace(pat, rep, 1)`. */
  function ReplaceFirst(s: string, pat: string, rep: string): (r: string)
    ensures !Contains(s, pat) ==> r == s
  {
    match FindFrom(s, pat, 0)
    case None => FindFromContains(s, pat); s
    case Some(i) => s[..i] + rep + s[i + |pat|..]
  }

  /** `s.split(c)` for a one-character separator. */
  function Split(s: string, c: char): (parts: seq<string>)
    ensures |parts| == Count(c, s) + 1
    ensures forall k :: 0 <= k < |parts| ==> c !in parts[k]
    decreases |s|
  {
    if s == [] then [[]]
    else
      var rest := Split(s[1..], c);
      if s[0] == c then [[]] + rest else [[s[0]] + rest[0]] + rest[1..]
  }

  /** `sep.join(parts)`. */
  function Join(parts: seq<string>, sep: string): string {
    if |parts| == 0 then []
    else if |parts| == 1 then parts[0]
    else parts[0] + sep + Join(parts[1..], sep)
  }

  /** `"".join(parts)`. */
  function Concat(parts: seq<string>): string {
    if parts == [] then [] else parts[0] + Concat(parts[1..])
  }

  lemma ConcatAppend(parts: seq<string>, last: string)
    ensures Concat(parts + [last]) == Concat(parts) + last
  {
    if parts != [] {
      assert (parts + [last])[1..] == parts[1..] + [last];
      ConcatAppend(parts[1..], last);
    }
  }

  /** The concatenation starts with the first part and ends with the last. */
  lemma ConcatFirstLast(parts: seq<string>)
    requires parts != []
    ensures StartsWith(Concat(parts), parts[0])
    ensures EndsWith(Concat(parts), parts[|parts| - 1])
  {
    var t := Concat(parts[1..]);
    assert (parts[0] + t)[..|parts[0]|] == parts[0];
    ConcatAppend(parts[..|parts| - 1], parts[|parts| - 1]);
    assert parts[..|parts| - 1] + [parts[|parts| - 1]] == parts;
  }

  lemma StartsWithTrans(s: string, a: string, b: string)
    requires StartsWith(s, a) && StartsWith(a, b)
    ensures StartsWith(s, b)
  {
    assert s[..|b|] == s[..|a|][..|b|];
  }

  /** A string whose first character differs from the pattern's does not start with it. */
  lemma FirstCharDiffers(s: string, p: string)
    requires |s| > 0 && |p| > 0 && s[0] != p[0]
    ensures !StartsWith(s, p)
  {
    if |p| <= |s| {
      assert s[..|p|][0] == s[0];
    }
  }

  lemma JoinAppend(parts: seq<string>, last: string, sep: string)
    requires |parts| > 0
    ensures Join(parts + [last], sep) == Join(parts, sep) + sep + last
  {
    if |parts| > 1 {
      assert (parts + [last])[1..] == parts[1..] + [last];
      JoinAppend(parts[1..], last, sep);
    } else {
      assert (parts + [last])[1..] == [last];
    }
  }

  /** Joining the pieces of a split gives the text back. */
  lemma {:induction false} JoinSplit(s: string, c: char)
    ensures Join(Split(s, c), [c]) == s
    decreases |s|
  {
    if s != [] {
      var rest := Split(s[1..], c);
      JoinSplit(s[1..], c);
      if s[0] == c {
        assert Split(s, c)[1..] == rest;
      } else {
        var parts := Split(s, c);
        assert parts[1..] == rest[1..];
        if |rest| > 1 {
          assert rest[1..][..] == rest[1..];
        }
      }
    }
  }

  lemma {:induction false} SplitNoSeparator(a: string, c: char)
    requires c !in a
    ensures Split(a, c) == [a]
    decreases |a|
  {
    if a != [] {
      SplitNoSeparator(a[1..], c);
      assert [a[0]] + a[1..] == a;
    }
  }

  lemma {:induction false} SplitAfterSeparator(a: string, b: string, c: char)
    requires c !in a
    ensures Split(a + [c] + b, c) == [a] + Split(b, c)
    decreases |a|
  {
    if a == [] {
      assert (a + [c] + b)[1..] == b;
    } else {
      assert (a + [c] + b)[1..] == a[1..] + [c] + b;
      SplitAfterSeparator(a[1..], b, c);
      assert [a[0]] + a[1..] == a;
    }
  }

  /** Splitting the join of separator-free pieces gives the pieces back. */
  lemma {:induction false} SplitJoin(parts: seq<string>, c: char)
    requires |parts| > 0
    requires forall k :: 0 <= k < |parts| ==> c !in parts[k]
    ensures Split(Join(parts, [c]), c) == parts
    decreases |parts|
  {
    if |parts| == 1 {
      SplitNoSeparator(parts[0], c);
    } else {
      SplitJoin(parts[1..], c);
      SplitAfterSeparator(parts[0], Join(parts[1..], [c]), c);
      assert parts == [parts[0]] + parts[1..];
    }
  }

  /** The text before the first `p`, or all of it (`s.split(p, 1)[0]`). */
  function BeforeFirst(s: string, p: string): (r: string)
    ensures |r| <= |s| && r == s[..|r|]
  {
    match FindFrom(s, p, 0)
    case None => s
    case Some(i) => s[..i]
  }

  /** The text before the first `c` holds no `c`. */
  lemma BeforeFirstExcludes(s: string, c: char)
    ensures c !in BeforeFirst(s, [c])
  {
    var r := BeforeFirst(s, [c]);
    forall k | 0 <= k < |r| ensures r[k] != c {
      assert !StartsAt(s, k, [c]);
      assert s[k..k + 1] == [s[k]];
    }
  }

  lemma CountAtMostLength(c: char, s: string)
    ensures Count(c, s) <= |s|
  {
  }

  /** The text after the first `p`, or all of it (`s.split(p, 1)[-1]`). */
  function AfterFirst(s: string, p: string): string {
    match FindFrom(s, p, 0)
    case None => s
    case Some(i) => s[i + |p|..]
  }

  // ---------------------------------------------------------------------------
  // Character-wise rewrites

  /** `str.lower()` on ASCII letters; other characters are kept. */
  function Lower(s: string): (r: string)
    ensures |r| == |s|
  {
    if s == [] then []
    else [if 'A' <= s[0] <= 'Z' then (s[0] as int + 32) as char else s[0]] + Lower(s[1..])
  }

  /** `re.sub(r"\s", "-", s)`. */
  function SpacesToHyphens(s: string): (r: string)
    ensures |r| == |s|
    ensures forall k :: 0 <= k < |r| ==> !IsSpace(r[k])
  {
    if s == [] then [] else [if IsSpace(s[0]) then '-' else s[0]] + SpacesToHyphens(s[1..])
  }

  /** `re.sub(r"[^\w-]", "", s)`. */
  function KeepWordOrHyphen(s: string): (r: string)
    ensures |r| <= |s|
    ensures forall k :: 0 <= k < |r| ==> IsWordChar(r[k]) || r[k] == '-'
  {
    if s == [] then []
    else (if IsWordChar(s[0]) || s[0] == '-' then [s[0]] else []) + KeepWordOrHyphen(s[1..])
  }

  /** `re.sub("[^a-zA-Z]", "", s)`. */
  function LettersOnly(s: string): (r: string)
    ensures forall k :: 0 <= k < |r| ==> IsAsciiLetter(r[k])
  {
    if s == [] then []
    else (if IsAsciiLetter(s[0]) then [s[0]] else []) + LettersOnly(s[1..])
  }

  // ---------------------------------------------------------------------------
  // Decimal numerals (`str(n)` for a non-negative int)

  function DigitChar(d: nat): (c: char)
    requires d < 10
    ensures IsDigit(c)
  {
    ('0' as int + d) as char
  }

  function NatToString(n: nat): (r: string)
    ensures |r| > 0
    ensures forall k :: 0 <= k < |r| ==> IsDigit(r[k])
    decreases n
  {
    if n < 10 then [DigitChar(n)] else NatToString(n / 10) + [DigitChar(n % 10)]
  }

  /** The value of a string of digits. */
  function DigitsValue(s: string): int
    requires forall k :: 0 <= k < |s| ==> IsDigit(s[k])
  {
    if s == [] then 0
    else DigitsValue(s[..|s| - 1]) * 10 + (s[|s| - 1] as int - '0' as int)
  }

  /** Reading a numeral back gives the number: numerals are distinct for distinct numbers. */
  lemma {:induction false} NatToStringValue(n: nat)
    ensures DigitsValue(NatToString(n)) == n
    decreases n
  {
    var r := NatToString(n);
    if n < 10 {
      assert r[..0] == [];
    } else {
      NatToStringValue(n / 10);
      assert r[..|r| - 1] == NatToString(n / 10);
    }
  }

  lemma NatToStringInjective(a: nat, b: nat)
    requires NatToString(a) == NatToString(b)
    ensures a == b
  {
    NatToStringValue(a);
    NatToStringValue(b);
  }

  /** A numeral has no leading zero. */
  lemma {:induction false} NatToStringLeadingDigit(n: nat)
    ensures NatToString(n)[0] == '0' <==> n == 0
    decreases n
  {
    if n >= 10 {
      NatToStringLeadingDigit(n / 10);
    }
  }
}
