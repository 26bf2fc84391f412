/**
 * Heading extraction and anchor slugs for the in-page table of contents.
 *
 * The slug is the three-step string transform of `generateHeadingSlug`;
 * the extraction is the `exec` loop of `extractHeadings` over the global,
 * multiline pattern `^(#+)\s(.+)$`, applied to the text of one document.
 * Characters are taken from the ASCII domain: `\s` is space, tab, line
 * feed, carriage return, vertical tab and form feed; `.` is any character
 * other than line feed and carriage return.
 */
module Headings {
  import opened Wrappers

  /** One entry of a document's table of contents. */
  datatype Heading = Heading(slug: string, title: string, level: nat)

  // ---------------------------------------------------------------------
  // Character classes
  // ---------------------------------------------------------------------

  /**
   * The class `\s` (and the characters that `trim` removes): the space,
   * and tab, line feed, vertical tab, form feed and carriage return, which
   * are the code points 9 to 13.
   */
  predicate IsSpace(c: char) {
    c == ' ' || '\t' <= c <= '\r'
  }

  /** The characters `.` refuses and at which multiline `^` and `$` anchor. */
  predicate IsLineTerminator(c: char) {
    c == '\n' || c == '\r'
  }

  predicate IsUpper(c: char) {
    'A' <= c <= 'Z'
  }

  /** The class `\w`: ASCII letters, digits and the underscore. */
  predicate IsWordChar(c: char) {
    'a' <= c <= 'z' || IsUpper(c) || '0' <= c <= '9' || c == '_'
  }

  /** The characters a slug may consist of. */
  predicate IsSlugChar(c: char) {
    'a' <= c <= 'z' || '0' <= c <= '9' || c == '_' || c == '-'
  }

  predicate NoSpace(s: string) {
    forall i :: 0 <= i < |s| ==> !IsSpace(s[i])
  }

  predicate AllSpace(s: string) {
    forall i :: 0 <= i < |s| ==> IsSpace(s[i])
  }

  /** The two characters are equal up to ASCII letter case. */
  predicate SameLetterIgnoringCase(a: char, b: char) {
    a == b || (IsUpper(a) && b as int == a as int + 32) || (IsUpper(b) && a as int == b as int + 32)
  }

  // ---------------------------------------------------------------------
  // Slug generation
  // ---------------------------------------------------------------------

  function LowerChar(c: char): char {
    if IsUpper(c) then (c as int + 32) as char else c
  }

  /** `toLowerCase`, restricted to ASCII letters. */
  function Lower(s: string): (r: string)
    ensures |r| == |s|
  {
    if s == [] then [] else [LowerChar(s[0])] + Lower(s[1..])
  }

  /** Lower-casing works character by character. */
  lemma {:induction false} LowerAt(s: string)
    ensures forall i :: 0 <= i < |s| ==> Lower(s)[i] == LowerChar(s[i])
  {
    if s != [] {
      LowerAt(s[1..]);
      assert forall i :: 1 <= i < |s| ==> Lower(s)[i] == Lower(s[1..])[i - 1];
    }
  }

  /** The characters `[\w\s-]` that the first replacement keeps. */
  predicate IsKept(c: char) {
    IsWordChar(c) || IsSpace(c) || c == '-'
  }

  /** `replace(/[^\w\s-]/g, '')`: every character outside the class is deleted. */
  function StripDisallowed(s: string): (r: string)
    ensures |r| <= |s|
  {
    if s == [] then []
    else if IsKept(s[0]) then [s[0]] + StripDisallowed(s[1..])
    else StripDisallowed(s[1..])
  }

  /** Length of the maximal run of whitespace at the start of `s`. */
  function LeadingSpaces(s: string): (n: nat)
    ensures n <= |s|
    ensures s != [] && IsSpace(s[0]) ==> n > 0
  {
    if s == [] || !IsSpace(s[0]) then 0 else 1 + LeadingSpaces(s[1..])
  }

  lemma {:induction false} LeadingSpacesMaximal(s: string)
    ensures AllSpace(s[..LeadingSpaces(s)])
    ensures LeadingSpaces(s) == |s| || !IsSpace(s[LeadingSpaces(s)])
  {
    if s != [] && IsSpace(s[0]) {
      LeadingSpacesMaximal(s[1..]);
      assert s[..LeadingSpaces(s)] == [s[0]] + s[1..][..LeadingSpaces(s[1..])];
    }
  }

  /** The maximal leading run is the only run followed by a non-space. */
  lemma {:induction false} LeadingSpacesUnique(s: string, k: nat)
    requires k <= |s| && AllSpace(s[..k])
    requires k == |s| || !IsSpace(s[k])
    ensures LeadingSpaces(s) == k
  {
    if k > 0 {
      assert IsSpace(s[..k][0]);
      assert s[1..][..k - 1] == s[..k][1..];
      LeadingSpacesUnique(s[1..], k - 1);
    }
  }

  /** Length of the maximal run of whitespace at the end of `s`. */
  function TrailingSpaces(s: string): (n: nat)
    ensures n <= |s|
  {
    if s == [] || !IsSpace(s[|s| - 1]) then 0 else 1 + TrailingSpaces(s[..|s| - 1])
  }

  lemma {:induction false} TrailingSpacesMaximal(s: string)
    ensures AllSpace(s[|s| - TrailingSpaces(s)..])
    ensures TrailingSpaces(s) == |s| || !IsSpace(s[|s| - TrailingSpaces(s) - 1])
  {
    if s != [] && IsSpace(s[|s| - 1]) {
      var t := s[..|s| - 1];
      var n := TrailingSpaces(t);
      TrailingSpacesMaximal(t);
      assert TrailingSpaces(s) == n + 1;
      assert s[|s| - (n + 1)..] == t[|t| - n..] + [s[|s| - 1]];
      if n < |t| {
        assert s[|s| - n - 2] == t[|t| - n - 1];
      }
    }
  }

  /**
   * `replace(/\s+/g, '-')`: scanning left to right, each maximal run of
   * whitespace is replaced by a single hyphen.
   */
  function CollapseSpaces(s: string): (r: string)
    ensures |r| <= |s|
    decreases |s|
  {
    if s == [] then []
    else if IsSpace(s[0]) then "-" + CollapseSpaces(s[LeadingSpaces(s)..])
    else [s[0]] + CollapseSpaces(s[1..])
  }

  /** `generateHeadingSlug`. */
  function Slug(heading: string): string {
    CollapseSpaces(StripDisallowed(Lower(heading)))
  }

  /** The word characters of `s`, in order. */
  function WordChars(s: string): string {
    if s == [] then []
    else if IsWordChar(s[0]) then [s[0]] + WordChars(s[1..])
    else WordChars(s[1..])
  }

  // ---------------------------------------------------------------------
  // Properties of slugs
  // ---------------------------------------------------------------------

  predicate NoUpper(s: string) {
    forall i :: 0 <= i < |s| ==> !IsUpper(s[i])
  }

  /** After lower-casing, the replacement keeps only slug characters and whitespace. */
  lemma {:induction false} StripAlphabet(s: string)
    requires NoUpper(s)
    ensures forall i :: 0 <= i < |StripDisallowed(s)| ==> IsSlugChar(StripDisallowed(s)[i]) || IsSpace(StripDisallowed(s)[i])
  {
    if s != [] {
      StripAlphabet(s[1..]);
    }
  }

  /** No whitespace survives the replacement of whitespace runs. */
  lemma {:induction false} CollapseNoSpace(s: string)
    ensures NoSpace(CollapseSpaces(s))
    decreases |s|
  {
    if s != [] {
      if IsSpace(s[0]) {
        CollapseNoSpace(s[LeadingSpaces(s)..]);
      } else {
        CollapseNoSpace(s[1..]);
      }
    }
  }

  /** Replacing whitespace runs by '-' leaves only slug characters. */
  lemma {:induction false} CollapseAlphabet(s: string)
    requires forall i :: 0 <= i < |s| ==> IsSlugChar(s[i]) || IsSpace(s[i])
    ensures forall i :: 0 <= i < |CollapseSpaces(s)| ==> IsSlugChar(CollapseSpaces(s)[i])
    decreases |s|
  {
    if s != [] {
      if IsSpace(s[0]) {
        CollapseAlphabet(s[LeadingSpaces(s)..]);
      } else {
        CollapseAlphabet(s[1..]);
      }
    }
  }

  /** A slug consists of `a-z`, `0-9`, `_` and `-` only; in particular it holds no whitespace. */
  lemma {:induction false} SlugAlphabet(s: string)
    ensures forall i :: 0 <= i < |Slug(s)| ==> IsSlugChar(Slug(s)[i])
    ensures NoSpace(Slug(s))
  {
    LowerAt(s);
    StripAlphabet(Lower(s));
    CollapseAlphabet(StripDisallowed(Lower(s)));
    CollapseNoSpace(StripDisallowed(Lower(s)));
  }

  lemma {:induction false} LowerOfSlugText(t: string)
    requires forall i :: 0 <= i < |t| ==> IsSlugChar(t[i]) || t[i] == ' '
    ensures Lower(t) == t
  {
    if t != [] {
      LowerOfSlugText(t[1..]);
    }
  }

  lemma {:induction false} StripOfSlugText(t: string)
    requires forall i :: 0 <= i < |t| ==> IsSlugChar(t[i]) || t[i] == ' '
    ensures StripDisallowed(t) == t
  {
    if t != [] {
      StripOfSlugText(t[1..]);
    }
  }

  /** Text without whitespace passes the hyphen replacement unchanged. */
  lemma {:induction false} CollapseOfNoSpace(t: string)
    requires NoSpace(t)
    ensures CollapseSpaces(t) == t
  {
    if t != [] {
      CollapseOfNoSpace(t[1..]);
    }
  }

  /** Slugging a slug changes nothing. */
  lemma {:induction false} SlugIdempotent(s: string)
    ensures Slug(Slug(s)) == Slug(s)
  {
    var t := Slug(s);
    SlugAlphabet(s);
    LowerOfSlugText(t);
    StripOfSlugText(t);
    CollapseOfNoSpace(t);
  }

  /** Inputs that differ only in ASCII letter case have the same slug. */
  lemma {:induction false} SlugIgnoresCase(a: string, b: string)
    requires |a| == |b|
    requires forall i :: 0 <= i < |a| ==> SameLetterIgnoringCase(a[i], b[i])
    ensures Slug(a) == Slug(b)
  {
    LowerAt(a);
    LowerAt(b);
    assert Lower(a) == Lower(b);
  }

  /**
   * Text without whitespace, then a non-empty run of whitespace, then text
   * that does not start with whitespace: the run becomes exactly one hyphen
   * and the text around it is kept as it is (existing hyphens included).
   */
  lemma {:induction false} CollapseRun(x: string, w: string, y: string)
    requires NoSpace(x)
    requires w != [] && AllSpace(w)
    requires y == [] || !IsSpace(y[0])
    ensures CollapseSpaces(x + w + y) == x + "-" + CollapseSpaces(y)
  {
    if x == [] {
      assert x + w + y == w + y;
      assert (w + y)[..|w|] == w;
      LeadingSpacesUnique(w + y, |w|);
      assert (w + y)[|w|..] == y;
    } else {
      assert (x + w + y)[1..] == x[1..] + w + y;
      CollapseRun(x[1..], w, y);
      assert x == [x[0]] + x[1..];
    }
  }

  lemma {:induction false} WordCharsOfLower(s: string)
    ensures WordChars(Lower(s)) == Lower(WordChars(s))
  {
    if s != [] {
      assert Lower(s)[1..] == Lower(s[1..]);
      WordCharsOfLower(s[1..]);
    }
  }

  lemma {:induction false} WordCharsOfStrip(s: string)
    ensures WordChars(StripDisallowed(s)) == WordChars(s)
  {
    if s != [] {
      WordCharsOfStrip(s[1..]);
    }
  }

  lemma {:induction false} WordCharsOfSpaces(w: string)
    requires AllSpace(w)
    ensures WordChars(w) == []
  {
    if w != [] {
      WordCharsOfSpaces(w[1..]);
    }
  }

  lemma {:induction false} WordCharsOfConcat(a: string, b: string)
    ensures WordChars(a + b) == WordChars(a) + WordChars(b)
  {
    if a == [] {
      assert a + b == b;
    } else {
      assert (a + b)[1..] == a[1..] + b;
      WordCharsOfConcat(a[1..], b);
    }
  }

  lemma {:induction false} WordCharsOfCollapse(s: string)
    ensures WordChars(CollapseSpaces(s)) == WordChars(s)
    decreases |s|
  {
    if s != [] {
      if IsSpace(s[0]) {
        var n := LeadingSpaces(s);
        LeadingSpacesMaximal(s);
        assert s == s[..n] + s[n..];
        WordCharsOfConcat(s[..n], s[n..]);
        WordCharsOfSpaces(s[..n]);
        WordCharsOfCollapse(s[n..]);
        WordCharsOfConcat("-", CollapseSpaces(s[n..]));
      } else {
        WordCharsOfCollapse(s[1..]);
      }
    }
  }

  /**
   * A slug is no longer than its input, and its word characters are the
   * input's word characters, lower-cased, in their original order.
   */
  lemma {:induction false} SlugKeepsWordChars(s: string)
    ensures |Slug(s)| <= |s|
    ensures WordChars(Slug(s)) == Lower(WordChars(s))
  {
    WordCharsOfCollapse(StripDisallowed(Lower(s)));
    WordCharsOfStrip(Lower(s));
    WordCharsOfLower(s);
  }

  /** An existing hyphen is kept, and each space beside it becomes one more: "a - b" gives "a---b". */
  lemma {:induction false} SlugOfSpacedHyphen(x: string, y: string)
    requires forall i :: 0 <= i < |x| ==> IsSlugChar(x[i])
    requires forall i :: 0 <= i < |y| ==> IsSlugChar(y[i])
    requires y != []
    ensures Slug(x + " - " + y) == x + "---" + y
  {
    SpacedHyphenKept(x, y);
    CollapseSpacedHyphen(x, y);
  }

  lemma {:induction false} SpacedHyphenKept(x: string, y: string)
    requires forall i :: 0 <= i < |x| ==> IsSlugChar(x[i])
    requires forall i :: 0 <= i < |y| ==> IsSlugChar(y[i])
    ensures StripDisallowed(Lower(x + " - " + y)) == x + " - " + y
  {
    var s := x + " - " + y;
    assert forall i :: 0 <= i < |x| ==> s[i] == x[i];
    assert forall i :: |x| + 3 <= i < |s| ==> s[i] == y[i - |x| - 3];
    LowerOfSlugText(s);
    StripOfSlugText(s);
  }

  lemma {:induction false} CollapseSpacedHyphen(x: string, y: string)
    requires forall i :: 0 <= i < |x| ==> IsSlugChar(x[i])
    requires forall i :: 0 <= i < |y| ==> IsSlugChar(y[i])
    requires y != []
    ensures CollapseSpaces(x + " - " + y) == x + "---" + y
  {
    var z := "- " + y;
    assert " " + "- " == " - ";
    Associative(" ", "- ", y);
    Associative(x, " ", z);
    Associative(x, " - ", y);
    CollapseRun(x, " ", z);
    assert "-" + " " == "- ";
    CollapseRun("-", " ", y);
    CollapseOfNoSpace(y);
    assert "-" + "-" + y == "--" + y;
    assert "-" + "--" == "---";
    Associative(x, "-", "--" + y);
    Associative(x + "-", "--", y);
    Associative(x, "-", "--");
  }

  // ---------------------------------------------------------------------
  // Trimming
  // ---------------------------------------------------------------------

  predicate IsTrimmed(s: string) {
    s == [] || (!IsSpace(s[0]) && !IsSpace(s[|s| - 1]))
  }

  /** `trim`: the whitespace at both ends is removed. */
  function Trim(s: string): (r: string)
    ensures |r| <= |s|
  {
    var t := s[LeadingSpaces(s)..];
    t[..|t| - TrailingSpaces(t)]
  }

  /**
   * The result of `trim` starts and ends with a non-space, and it is a
   * contiguous middle part of the input with only whitespace around it.
   */
  lemma {:induction false} TrimIsMiddle(s: string)
    ensures IsTrimmed(Trim(s))
    ensures exists i, j :: 0 <= i <= j <= |s| && Trim(s) == s[i..j] && AllSpace(s[..i]) && AllSpace(s[j..])
  {
    var i := LeadingSpaces(s);
    var t := s[i..];
    var n := TrailingSpaces(t);
    var j := i + |t| - n;
    LeadingSpacesMaximal(s);
    TrailingSpacesMaximal(t);
    assert Trim(s) == s[i..j] by {
      assert t[..|t| - n] == s[i..j];
    }
    assert AllSpace(s[j..]) by {
      assert t[|t| - n..] == s[j..];
    }
    TrimIsTrimmed(s);
  }

  /** Neither end of a trimmed string is whitespace. */
  lemma {:induction false} TrimIsTrimmed(s: string)
    ensures IsTrimmed(Trim(s))
  {
    var i := LeadingSpaces(s);
    var t := s[i..];
    var n := TrailingSpaces(t);
    LeadingSpacesMaximal(s);
    TrailingSpacesMaximal(t);
    if Trim(s) != [] {
      assert Trim(s)[0] == s[i];
      assert Trim(s)[|Trim(s)| - 1] == t[|t| - n - 1];
    }
  }

  /** Text that is already trimmed is left unchanged. */
  lemma {:induction false} TrimOfTrimmed(s: string)
    requires IsTrimmed(s)
    ensures Trim(s) == s
  {
  }

  // ---------------------------------------------------------------------
  // The pattern ^(#+)\s(.+)$ with the flags g and m
  // ---------------------------------------------------------------------

  /**
   * A match of the pattern: it starts at `start`, group 1 is
   * `s[start..start + level]` and group 2 is `s[start + level + 1..end]`.
   */
  datatype Match = Match(start: nat, level: nat, end: nat)

  /** Both groups of `m` lie within `s`. */
  predicate InBounds(s: string, m: Match) {
    m.start + m.level + 1 <= m.end <= |s|
  }

  /** Multiline `^`: the start of the input or just after a line terminator. */
  predicate AtLineStart(s: string, p: nat)
    requires p <= |s|
  {
    p == 0 || IsLineTerminator(s[p - 1])
  }

  /**
   * Every condition the pattern puts on a match: a line start, one or more
   * '#', one whitespace character (possibly a line terminator), one or
   * more characters other than a line terminator, and then the end of the
   * input or a line terminator (multiline `$`).  It fixes `level` and `end`
   * once `start` is given, so greedy matching and backtracking never choose
   * between several candidates.
   */
  ghost predicate IsPatternMatch(s: string, m: Match) {
    InBounds(s, m)
    && m.start + m.level + 1 < m.end
    && AtLineStart(s, m.start)
    && m.level >= 1
    && (forall i :: m.start <= i < m.start + m.level ==> s[i] == '#')
    && IsSpace(s[m.start + m.level])
    && (forall i :: m.start + m.level + 1 <= i < m.end ==> !IsLineTerminator(s[i]))
    && (m.end == |s| || IsLineTerminator(s[m.end]))
  }

  /** Length of the run of '#' starting at `p`. */
  function HashRun(s: string, p: nat): (n: nat)
    requires p <= |s|
    ensures p + n <= |s|
    decreases |s| - p
  {
    if p == |s| || s[p] != '#' then 0 else 1 + HashRun(s, p + 1)
  }

  /** The run is maximal: all '#', and not followed by another '#'. */
  lemma {:induction false} HashRunMaximal(s: string, p: nat)
    requires p <= |s|
    ensures forall i :: p <= i < p + HashRun(s, p) ==> s[i] == '#'
    ensures p + HashRun(s, p) == |s| || s[p + HashRun(s, p)] != '#'
    decreases |s| - p
  {
    if p < |s| && s[p] == '#' {
      HashRunMaximal(s, p + 1);
    }
  }

  lemma {:induction false} HashRunUnique(s: string, p: nat, k: nat)
    requires p + k <= |s|
    requires forall i :: p <= i < p + k ==> s[i] == '#'
    requires p + k == |s| || s[p + k] != '#'
    ensures HashRun(s, p) == k
    decreases k
  {
    if k > 0 {
      HashRunUnique(s, p + 1, k - 1);
    }
  }

  /** The first line terminator at or after `p`, or the end of the input. */
  function LineEnd(s: string, p: nat): (e: nat)
    requires p <= |s|
    ensures p <= e <= |s|
    decreases |s| - p
  {
    if p == |s| || IsLineTerminator(s[p]) then p else LineEnd(s, p + 1)
  }

  /** Nothing before the line end is a terminator, and the line end is one (or the end of the input). */
  lemma {:induction false} LineEndIsFirstTerminator(s: string, p: nat)
    requires p <= |s|
    ensures forall i :: p <= i < LineEnd(s, p) ==> !IsLineTerminator(s[i])
    ensures LineEnd(s, p) == |s| || IsLineTerminator(s[LineEnd(s, p)])
    decreases |s| - p
  {
    if p < |s| && !IsLineTerminator(s[p]) {
      LineEndIsFirstTerminator(s, p + 1);
    }
  }

  lemma {:induction false} LineEndUnique(s: string, p: nat, e: nat)
    requires p <= e <= |s|
    requires forall i :: p <= i < e ==> !IsLineTerminator(s[i])
    requires e == |s| || IsLineTerminator(s[e])
    ensures LineEnd(s, p) == e
    decreases e - p
  {
    if p < e {
      LineEndUnique(s, p + 1, e);
    }
  }

  /** The attempt of the pattern at position `p` alone. */
  function MatchAt(s: string, p: nat): (r: Option<Match>)
    requires p <= |s|
    ensures r.Some? ==> r.value.start == p && p + r.value.level + 1 < r.value.end <= |s|
  {
    if !AtLineStart(s, p) then None
    else
      var k := HashRun(s, p);
      if k == 0 || p + k == |s| || !IsSpace(s[p + k]) then None
      else
        var e := LineEnd(s, p + k + 1);
        if e == p + k + 1 then None else Some(Match(p, k, e))
  }

  /** What `MatchAt` finds is a match of the pattern. */
  lemma {:induction false} MatchAtSound(s: string, p: nat)
    requires p <= |s| && MatchAt(s, p).Some?
    ensures IsPatternMatch(s, MatchAt(s, p).value)
  {
    HashRunMaximal(s, p);
    LineEndIsFirstTerminator(s, p + HashRun(s, p) + 1);
  }

  /** Any match of the pattern at `m.start` is the one `MatchAt` finds. */
  lemma {:induction false} MatchAtComplete(s: string, m: Match)
    requires IsPatternMatch(s, m)
    ensures MatchAt(s, m.start) == Some(m)
  {
    HashRunUnique(s, m.start, m.level);
    LineEndUnique(s, m.start + m.level + 1, m.end);
  }

  /**
   * `exec` with `lastIndex == from`: the first position at or after
   * `from` where the pattern matches, tried one position after another.
   */
  function FirstMatch(s: string, from: nat): (r: Option<Match>)
    requires from <= |s|
    ensures r.Some? ==> from <= r.value.start <= |s| && MatchAt(s, r.value.start) == r
    decreases |s| - from
  {
    if from == |s| then None
    else if MatchAt(s, from).Some? then MatchAt(s, from)
    else FirstMatch(s, from + 1)
  }

  /** `exec` finds the leftmost match at or after `from`, and reports none only when there is none. */
  lemma {:induction false} FirstMatchLeftmost(s: string, from: nat)
    requires from <= |s|
    ensures FirstMatch(s, from).Some? ==>
      forall q :: from <= q < FirstMatch(s, from).value.start ==> MatchAt(s, q).None?
    ensures FirstMatch(s, from).None? ==> forall q :: from <= q <= |s| ==> MatchAt(s, q).None?
    decreases |s| - from
  {
    if from < |s| && MatchAt(s, from).None? {
      FirstMatchLeftmost(s, from + 1);
    }
  }

  /** The matches the `exec` loop visits when it starts at `lastIndex == from`. */
  function MatchesFrom(s: string, from: nat): (ms: seq<Match>)
    requires from <= |s|
    decreases |s| - from
  {
    match FirstMatch(s, from)
    case None => []
    case Some(m) => [m] + MatchesFrom(s, m.end)
  }

  /** Each visited match is what the pattern finds at its start, and the matches do not overlap. */
  lemma {:induction false} MatchesFromOrdered(s: string, from: nat)
    requires from <= |s|
    ensures forall i :: 0 <= i < |MatchesFrom(s, from)| ==>
      MatchesFrom(s, from)[i].start <= |s| && MatchAt(s, MatchesFrom(s, from)[i].start) == Some(MatchesFrom(s, from)[i])
    ensures forall i, j :: 0 <= i < j < |MatchesFrom(s, from)| ==>
      MatchesFrom(s, from)[i].end <= MatchesFrom(s, from)[j].start
    decreases |s| - from
  {
    match FirstMatch(s, from)
    case None =>
    case Some(m) =>
      FirstMatchBounds(s, from);
      MatchesFromOrdered(s, m.end);
      MatchesFromInBounds(s, m.end);
      var rest := MatchesFrom(s, m.end);
      assert MatchesFrom(s, from) == [m] + rest;
  }

  /** Every visited match lies at or after `from` and within the text. */
  lemma {:induction false} MatchesFromInBounds(s: string, from: nat)
    requires from <= |s|
    ensures forall i :: 0 <= i < |MatchesFrom(s, from)| ==>
      from <= MatchesFrom(s, from)[i].start && InBounds(s, MatchesFrom(s, from)[i])
    decreases |s| - from
  {
    match FirstMatch(s, from)
    case None =>
    case Some(m) =>
      FirstMatchBounds(s, from);
      MatchesFromInBounds(s, m.end);
      var rest := MatchesFrom(s, m.end);
      assert MatchesFrom(s, from) == [m] + rest;
  }

  function Matches(s: string): seq<Match> {
    MatchesFrom(s, 0)
  }

  /** The entry for a heading with `k` '#' whose second group is `text`. */
  function HeadingFor(text: string, k: nat): Heading {
    var title := Trim(text);
    Heading(Slug(title), title, k)
  }

  /**
   * The heading record pushed for one match.  The scan only produces
   * matches that lie within the text (`MatchesFromInBounds`); any other
   * match is given an empty second group.
   */
  function HeadingOf(s: string, m: Match): Heading {
    var text := if InBounds(s, m) then s[m.start + m.level + 1..m.end] else [];
    HeadingFor(text, m.level)
  }

  function HeadingsOf(s: string, ms: seq<Match>): (hs: seq<Heading>)
    ensures |hs| == |ms|
  {
    if ms == [] then [] else [HeadingOf(s, ms[0])] + HeadingsOf(s, ms[1..])
  }

  lemma {:induction false} HeadingsOfAt(s: string, ms: seq<Match>)
    ensures forall i :: 0 <= i < |ms| ==> HeadingsOf(s, ms)[i] == HeadingOf(s, ms[i])
  {
    if ms != [] {
      HeadingsOfAt(s, ms[1..]);
    }
  }

  /** What `extractHeadings` returns for a document whose text is `s`. */
  function DocumentHeadings(s: string): seq<Heading> {
    HeadingsOf(s, Matches(s))
  }

  /** One turn of the `exec` loop: the first match's heading, then the rest. */
  lemma {:induction false} HeadingsFromStep(s: string, from: nat)
    requires from <= |s| && FirstMatch(s, from).Some?
    ensures FirstMatch(s, from).value.end <= |s|
    ensures HeadingsOf(s, MatchesFrom(s, from))
      == [HeadingOf(s, FirstMatch(s, from).value)] + HeadingsOf(s, MatchesFrom(s, FirstMatch(s, from).value.end))
  {
    var m := FirstMatch(s, from).value;
    var rest := MatchesFrom(s, m.end);
    assert MatchesFrom(s, from) == [m] + rest;
    assert ([m] + rest)[1..] == rest;
  }

  lemma {:induction false} HeadingOfParts(s: string, m: Match)
    requires InBounds(s, m)
    ensures HeadingOf(s, m).level == m.level
    ensures HeadingOf(s, m).title == Trim(s[m.start + m.level + 1..m.end])
    ensures HeadingOf(s, m).slug == Slug(HeadingOf(s, m).title)
  {
  }

  lemma {:induction false} Associative<T>(a: seq<T>, b: seq<T>, c: seq<T>)
    ensures (a + b) + c == a + (b + c)
  {
  }

  /** `extractHeadings`, run on the document's text. */
  method ExtractHeadings(content: string) returns (headings: seq<Heading>)
    ensures headings == DocumentHeadings(content)
  {
    headings := [];
    var lastIndex := 0;
    var found := FirstMatch(content, lastIndex);
    while found.Some?
      invariant lastIndex <= |content|
      invariant found == FirstMatch(content, lastIndex)
      invariant headings + HeadingsOf(content, MatchesFrom(content, lastIndex)) == DocumentHeadings(content)
      decreases |content| - lastIndex
    {
      var m := found.value;
      FirstMatchBounds(content, lastIndex);
      var level := m.level;
      var title := Trim(content[m.start + level + 1..m.end]);
      var slug := Slug(title);
      HeadingOfParts(content, m);
      ghost var h := HeadingOf(content, m);
      assert Heading(slug, title, level) == h;
      HeadingsFromStep(content, lastIndex);
      Associative(headings, [h], HeadingsOf(content, MatchesFrom(content, m.end)));
      headings := headings + [Heading(slug, title, level)];
      lastIndex := m.end;
      found := FirstMatch(content, lastIndex);
    }
  }

  // ---------------------------------------------------------------------
  // Properties of the extraction
  // ---------------------------------------------------------------------

  /**
   * Every entry comes from a match of the pattern, in document order:
   * its level is the length of the '#' run, its title is the trimmed
   * second group and its slug is the slug of the title.
   */
  lemma {:induction false} HeadingsFromMatches(s: string)
    ensures |DocumentHeadings(s)| == |Matches(s)|
    ensures forall i :: 0 <= i < |Matches(s)| ==>
      var m := Matches(s)[i];
      var h := DocumentHeadings(s)[i];
      IsPatternMatch(s, m)
      && h.level == m.level >= 1
      && h.title == Trim(s[m.start + m.level + 1..m.end])
      && IsTrimmed(h.title)
      && h.slug == Slug(h.title)
    ensures forall i, j :: 0 <= i < j < |Matches(s)| ==> Matches(s)[i].end <= Matches(s)[j].start
  {
    var ms := Matches(s);
    var hs := DocumentHeadings(s);
    MatchesFromOrdered(s, 0);
    HeadingsOfAt(s, ms);
    forall i | 0 <= i < |ms|
      ensures IsPatternMatch(s, ms[i])
      ensures hs[i].level == ms[i].level >= 1
      ensures hs[i].title == Trim(s[ms[i].start + ms[i].level + 1..ms[i].end])
      ensures IsTrimmed(hs[i].title) && hs[i].slug == Slug(hs[i].title)
    {
      HeadingFromMatch(s, ms[i]);
    }
  }

  lemma {:induction false} HeadingFromMatch(s: string, m: Match)
    requires m.start <= |s| && MatchAt(s, m.start) == Some(m)
    ensures IsPatternMatch(s, m) && InBounds(s, m)
    ensures HeadingOf(s, m).level == m.level >= 1
    ensures HeadingOf(s, m).title == Trim(s[m.start + m.level + 1..m.end])
    ensures IsTrimmed(HeadingOf(s, m).title) && HeadingOf(s, m).slug == Slug(HeadingOf(s, m).title)
  {
    MatchAtSound(s, m.start);
    TrimIsTrimmed(s[m.start + m.level + 1..m.end]);
  }

  lemma {:induction false} MatchesFromCover(s: string, from: nat, p: nat)
    requires from <= p <= |s|
    requires MatchAt(s, p).Some?
    ensures exists i :: 0 <= i < |MatchesFrom(s, from)| && MatchesFrom(s, from)[i].start <= p < MatchesFrom(s, from)[i].end
    decreases |s| - from
  {
    FirstMatchLeftmost(s, from);
    var m := FirstMatch(s, from).value;
    var ms := MatchesFrom(s, from);
    assert ms[0] == m;
    if m.end <= p {
      MatchesFromCover(s, m.end, p);
      var i :| 0 <= i < |MatchesFrom(s, m.end)| && MatchesFrom(s, m.end)[i].start <= p < MatchesFrom(s, m.end)[i].end;
      assert ms[i + 1] == MatchesFrom(s, m.end)[i];
    }
  }

  /**
   * No match is skipped: every position at which the pattern matches lies
   * within one of the matches the loop visits (it is the start of one, or
   * lies inside an earlier one, as when `\s` consumed a line feed).
   */
  lemma {:induction false} MatchesCoverEveryMatch(s: string, p: nat)
    requires p <= |s|
    requires MatchAt(s, p).Some?
    ensures exists i :: 0 <= i < |Matches(s)| && Matches(s)[i].start <= p < Matches(s)[i].end
  {
    assert Matches(s) == MatchesFrom(s, 0);
    MatchesFromCover(s, 0, p);
  }

  /** A document has no headings exactly when the pattern matches nowhere. */
  lemma {:induction false} NoHeadingsIffNoMatch(s: string)
    ensures DocumentHeadings(s) == [] <==> forall p :: 0 <= p <= |s| ==> MatchAt(s, p).None?
  {
    FirstMatchLeftmost(s, 0);
    if DocumentHeadings(s) == [] {
      forall p | 0 <= p <= |s| ensures MatchAt(s, p).None? {
        if MatchAt(s, p).Some? {
          MatchesCoverEveryMatch(s, p);
        }
      }
    }
  }

  /** Text in which no line starts with '#' has no headings. */
  lemma {:induction false} NoHashLineStartNoHeadings(s: string)
    requires forall p :: 0 <= p < |s| && AtLineStart(s, p) ==> s[p] != '#'
    ensures DocumentHeadings(s) == []
  {
    forall p | 0 <= p <= |s| ensures MatchAt(s, p).None? {
      if p < |s| && AtLineStart(s, p) {
        assert s[p] != '#';
      }
    }
    NoHeadingsIffNoMatch(s);
  }

  // ---------------------------------------------------------------------
  // Line by line
  // ---------------------------------------------------------------------

  /** `k` '#' characters. */
  function Hashes(k: nat): (r: string)
    ensures |r| == k
    ensures forall i :: 0 <= i < k ==> r[i] == '#'
  {
    if k == 0 then [] else "#" + Hashes(k - 1)
  }

  /** Text within one line: it holds no line terminator. */
  predicate IsLine(s: string) {
    forall i :: 0 <= i < |s| ==> !IsLineTerminator(s[i])
  }

  /**
   * A line the pattern cannot match at its start, whatever follows it:
   * it is empty, does not start with '#', or its '#' run is followed by a
   * non-whitespace character, or by one whitespace character that ends it.
   */
  predicate NotAHeadingLine(line: string) {
    line == [] || line[0] != '#'
    || (HashRun(line, 0) < |line| && (!IsSpace(line[HashRun(line, 0)]) || HashRun(line, 0) + 1 == |line|))
  }

  /** What follows a line: nothing, or a line terminator and the rest of the document. */
  predicate EndsLine(rest: string) {
    rest == [] || IsLineTerminator(rest[0])
  }

  function ShiftMatch(m: Match, d: nat): Match {
    Match(m.start + d, m.level, m.end + d)
  }

  function ShiftMatches(ms: seq<Match>, d: nat): (r: seq<Match>)
    ensures |r| == |ms|
  {
    if ms == [] then [] else [ShiftMatch(ms[0], d)] + ShiftMatches(ms[1..], d)
  }

  function ShiftOption(r: Option<Match>, d: nat): Option<Match> {
    match r
    case None => None
    case Some(m) => Some(ShiftMatch(m, d))
  }

  /** Where the text after position `n` starts a line of its own. */
  predicate StartsAfterLine(s: string, n: nat) {
    n <= |s| && (n == 0 || IsLineTerminator(s[n - 1]))
  }

  lemma {:induction false} HashRunShift(s: string, n: nat, q: nat)
    requires n + q <= |s|
    ensures HashRun(s, n + q) == HashRun(s[n..], q)
    decreases |s| - q
  {
    if n + q < |s| && s[n + q] == '#' {
      HashRunShift(s, n, q + 1);
    }
  }

  lemma {:induction false} LineEndShift(s: string, n: nat, q: nat)
    requires n + q <= |s|
    ensures LineEnd(s, n + q) == n + LineEnd(s[n..], q)
    decreases |s| - q
  {
    if n + q < |s| && !IsLineTerminator(s[n + q]) {
      LineEndShift(s, n, q + 1);
    }
  }

  /** After a line terminator, the pattern sees the rest of the document as a document of its own. */
  lemma {:induction false} MatchAtShift(s: string, n: nat, q: nat)
    requires StartsAfterLine(s, n) && n + q <= |s|
    ensures MatchAt(s, n + q) == ShiftOption(MatchAt(s[n..], q), n)
  {
    var t := s[n..];
    var p := n + q;
    assert AtLineStart(s, p) == AtLineStart(t, q) by {
      if q > 0 {
        assert s[p - 1] == t[q - 1];
      }
    }
    HashRunShift(s, n, q);
    var k := HashRun(t, q);
    if !AtLineStart(t, q) || k == 0 || q + k == |t| {
    } else if !IsSpace(t[q + k]) {
      assert s[p + k] == t[q + k];
    } else {
      assert s[p + k] == t[q + k];
      LineEndShift(s, n, q + k + 1);
      var e := LineEnd(t, q + k + 1);
      if e == q + k + 1 {
        assert MatchAt(t, q) == None;
      } else {
        assert MatchAt(t, q) == Some(Match(q, k, e));
        assert MatchAt(s, p) == Some(Match(p, k, n + e));
      }
    }
  }

  lemma {:induction false} FirstMatchShift(s: string, n: nat, q: nat)
    requires StartsAfterLine(s, n) && n + q <= |s|
    ensures FirstMatch(s, n + q) == ShiftOption(FirstMatch(s[n..], q), n)
    decreases |s| - q
  {
    if n + q < |s| {
      MatchAtShift(s, n, q);
      if MatchAt(s[n..], q).None? {
        FirstMatchShift(s, n, q + 1);
      }
    }
  }

  lemma {:induction false} MatchesFromShift(s: string, n: nat, q: nat)
    requires StartsAfterLine(s, n) && n + q <= |s|
    ensures MatchesFrom(s, n + q) == ShiftMatches(MatchesFrom(s[n..], q), n)
    decreases |s| - q
  {
    FirstMatchShift(s, n, q);
    var t := s[n..];
    if FirstMatch(t, q).None? {
      MatchesFromShiftNone(s, n, q);
    } else {
      var m := FirstMatch(t, q).value;
      FirstMatchBounds(t, q);
      MatchesFromShift(s, n, m.end);
      MatchesFromShiftStep(s, n, q, m);
    }
  }

  lemma {:induction false} MatchesFromShiftNone(s: string, n: nat, q: nat)
    requires n + q <= |s|
    requires FirstMatch(s[n..], q).None? && FirstMatch(s, n + q).None?
    ensures MatchesFrom(s, n + q) == ShiftMatches(MatchesFrom(s[n..], q), n)
  {
  }

  lemma {:induction false} FirstMatchBounds(s: string, from: nat)
    requires from <= |s| && FirstMatch(s, from).Some?
    ensures from <= FirstMatch(s, from).value.start
    ensures FirstMatch(s, from).value.start + FirstMatch(s, from).value.level + 1 < FirstMatch(s, from).value.end <= |s|
  {
    var m := FirstMatch(s, from).value;
    assert MatchAt(s, m.start) == Some(m);
  }

  lemma {:induction false} MatchesFromShiftStep(s: string, n: nat, q: nat, m: Match)
    requires StartsAfterLine(s, n) && n + q <= |s|
    requires FirstMatch(s[n..], q) == Some(m)
    requires FirstMatch(s, n + q) == Some(ShiftMatch(m, n))
    requires m.end <= |s| - n
    requires MatchesFrom(s, n + m.end) == ShiftMatches(MatchesFrom(s[n..], m.end), n)
    ensures MatchesFrom(s, n + q) == ShiftMatches(MatchesFrom(s[n..], q), n)
  {
    var t := s[n..];
    var rest := MatchesFrom(t, m.end);
    var sm := ShiftMatch(m, n);
    MatchesFromUnfold(s, n + q);
    assert MatchesFrom(s, n + q) == [sm] + ShiftMatches(rest, n);
    ShiftMatchesCons(m, rest, n);
    MatchesFromUnfold(t, q);
    assert MatchesFrom(t, q) == [m] + rest;
  }

  lemma {:induction false} MatchesFromUnfold(s: string, from: nat)
    requires from <= |s| && FirstMatch(s, from).Some?
    ensures FirstMatch(s, from).value.end <= |s|
    ensures MatchesFrom(s, from) == [FirstMatch(s, from).value] + MatchesFrom(s, FirstMatch(s, from).value.end)
  {
  }

  lemma {:induction false} ShiftMatchesCons(m: Match, ms: seq<Match>, d: nat)
    ensures ShiftMatches([m] + ms, d) == [ShiftMatch(m, d)] + ShiftMatches(ms, d)
  {
    assert ([m] + ms)[1..] == ms;
  }

  lemma {:induction false} HeadingsOfShift(s: string, n: nat, ms: seq<Match>)
    requires n <= |s|
    requires forall i :: 0 <= i < |ms| ==> InBounds(s[n..], ms[i])
    ensures forall i :: 0 <= i < |ms| ==> InBounds(s, ShiftMatches(ms, n)[i])
    ensures HeadingsOf(s, ShiftMatches(ms, n)) == HeadingsOf(s[n..], ms)
  {
    var sh := ShiftMatches(ms, n);
    if ms != [] {
      HeadingOfShift(s, n, ms[0]);
      assert sh[1..] == ShiftMatches(ms[1..], n);
      HeadingsOfShift(s, n, ms[1..]);
    }
  }

  lemma {:induction false} HeadingOfShift(s: string, n: nat, m: Match)
    requires n <= |s| && InBounds(s[n..], m)
    ensures InBounds(s, ShiftMatch(m, n))
    ensures HeadingOf(s, ShiftMatch(m, n)) == HeadingOf(s[n..], m)
  {
    HeadingOfTitle(s, s[n..][m.start + m.level + 1..m.end], ShiftMatch(m, n));
  }

  lemma {:induction false} HeadingOfTitle(s: string, t: string, m: Match)
    requires InBounds(s, m) && s[m.start + m.level + 1..m.end] == t
    ensures HeadingOf(s, m) == Heading(Slug(Trim(t)), Trim(t), m.level)
  {
  }

  /** The headings found after a line terminator are those of the text after it. */
  lemma {:induction false} HeadingsAfter(s: string, n: nat)
    requires StartsAfterLine(s, n)
    ensures HeadingsOf(s, MatchesFrom(s, n)) == DocumentHeadings(s[n..])
  {
    MatchesFromShift(s, n, 0);
    MatchesFromInBounds(s[n..], 0);
    HeadingsOfShift(s, n, MatchesFrom(s[n..], 0));
  }

  lemma {:induction false} SkipNoMatch(s: string, from: nat, to: nat)
    requires from <= to <= |s|
    requires forall q :: from <= q < to ==> MatchAt(s, q).None?
    ensures FirstMatch(s, from) == FirstMatch(s, to)
    decreases |s| - from
  {
    if from < to {
      SkipNoMatch(s, from + 1, to);
    }
  }

  /**
   * The headings of what follows the end of a line, given the text from
   * that end on: none at the end of the input, otherwise those of the text
   * after the line terminator.
   */
  function AfterLine(rest: string): seq<Heading> {
    if rest == [] then [] else DocumentHeadings(rest[1..])
  }

  lemma {:induction false} HeadingsFromLineEnd(s: string, e: nat)
    requires e <= |s| && (e == |s| || IsLineTerminator(s[e]))
    ensures HeadingsOf(s, MatchesFrom(s, e)) == AfterLine(s[e..])
  {
    if e < |s| {
      TerminatorSkipped(s, e);
      assert s[e..][1..] == s[e + 1..];
    } else {
      NoMatchesAtEnd(s);
      assert s[e..] == [];
    }
  }

  lemma {:induction false} TerminatorSkipped(s: string, e: nat)
    requires e < |s| && IsLineTerminator(s[e])
    ensures HeadingsOf(s, MatchesFrom(s, e)) == DocumentHeadings(s[e + 1..])
  {
    TerminatorNoMatch(s, e);
    HeadingsAfter(s, e + 1);
  }

  /** No match starts at a line terminator, so the scan passes over it. */
  lemma {:induction false} TerminatorNoMatch(s: string, e: nat)
    requires e < |s| && IsLineTerminator(s[e])
    ensures MatchesFrom(s, e) == MatchesFrom(s, e + 1)
  {
    assert MatchAt(s, e).None?;
    assert FirstMatch(s, e) == FirstMatch(s, e + 1);
  }

  lemma {:induction false} NoMatchesAtEnd(s: string)
    ensures MatchesFrom(s, |s|) == []
  {
  }

  /**
   * A document whose first line is `k` '#', one whitespace character and a
   * non-empty rest ending at `e` gives that line's entry, then the entries
   * of the text after the line.
   */
  lemma {:induction false} FirstLineHeadings(s: string, k: nat, e: nat)
    requires 1 <= k && k + 1 < e <= |s|
    requires forall i :: 0 <= i < k ==> s[i] == '#'
    requires IsSpace(s[k])
    requires forall i :: k + 1 <= i < e ==> !IsLineTerminator(s[i])
    requires e == |s| || IsLineTerminator(s[e])
    ensures DocumentHeadings(s) == [HeadingFor(s[k + 1..e], k)] + AfterLine(s[e..])
  {
    var m := Match(0, k, e);
    MatchAtComplete(s, m);
    assert FirstMatch(s, 0) == Some(m);
    HeadingsFromStep(s, 0);
    HeadingOfTitle(s, s[k + 1..e], m);
    HeadingsFromLineEnd(s, e);
  }

  /** A line that is not a heading line adds no entry. */
  lemma {:induction false} PlainLine(line: string, rest: string)
    requires IsLine(line) && NotAHeadingLine(line) && EndsLine(rest)
    ensures DocumentHeadings(line + rest) == AfterLine(rest)
  {
    var s := line + rest;
    PlainLineSkipped(line, rest);
    LineRestFacts(line, rest);
    SkippedLine(s, |line|);
  }

  lemma {:induction false} LineRestFacts(line: string, rest: string)
    requires EndsLine(rest)
    ensures var s := line + rest;
      && (|line| == |s| || IsLineTerminator(s[|line|]))
      && s[|line|..] == rest
  {
    var s := line + rest;
    assert s[|line|..] == rest;
    if rest != [] {
      assert s[|line|] == rest[0];
    }
  }

  /** When the scan finds nothing before the end `e` of the first line, the document's headings are those after it. */
  lemma {:induction false} SkippedLine(s: string, e: nat)
    requires e <= |s| && (e == |s| || IsLineTerminator(s[e]))
    requires FirstMatch(s, 0) == FirstMatch(s, e)
    ensures DocumentHeadings(s) == AfterLine(s[e..])
  {
    assert Matches(s) == MatchesFrom(s, e);
    HeadingsFromLineEnd(s, e);
  }

  lemma {:induction false} PlainLineSkipped(line: string, rest: string)
    requires IsLine(line) && NotAHeadingLine(line) && EndsLine(rest)
    ensures FirstMatch(line + rest, 0) == FirstMatch(line + rest, |line|)
  {
    var s := line + rest;
    PlainLineStart(line, rest);
    forall q | 0 < q <= |line| ensures MatchAt(s, q).None? {
      assert s[q - 1] == line[q - 1];
    }
    SkipNoMatch(s, 0, |line|);
  }

  lemma {:induction false} PlainLineStart(line: string, rest: string)
    requires IsLine(line) && NotAHeadingLine(line) && EndsLine(rest)
    ensures MatchAt(line + rest, 0).None?
  {
    var s := line + rest;
    if line != [] && line[0] == '#' {
      var k := HashRun(line, 0);
      HashRunMaximal(line, 0);
      assert forall i :: 0 <= i <= k ==> s[i] == line[i];
      HashRunUnique(s, 0, k);
      if IsSpace(line[k]) {
        LineEndUnique(s, k + 1, k + 1);
      }
    }
  }

  // ---------------------------------------------------------------------
  // Documents as lines
  // ---------------------------------------------------------------------

  /** The lines joined with line feeds. */
  function JoinLines(lines: seq<string>): string
    decreases |lines|
  {
    if |lines| == 0 then []
    else if |lines| == 1 then lines[0]
    else lines[0] + "\n" + JoinLines(lines[1..])
  }

  /** A non-empty line of nothing but '#': its whitespace would be the line feed after it. */
  predicate OnlyHashes(line: string) {
    line != [] && HashRun(line, 0) == |line|
  }

  /** One or more '#', one whitespace character and at least one more character. */
  predicate IsHeadingLine(line: string) {
    var k := HashRun(line, 0);
    k >= 1 && k + 1 < |line| && IsSpace(line[k])
  }

  /** The entries one line gives on its own. */
  function LineHeadings(line: string): (hs: seq<Heading>)
    ensures |hs| <= 1
  {
    if IsHeadingLine(line) then
      var k := HashRun(line, 0);
      [HeadingFor(line[k + 1..], k)]
    else []
  }

  function HeadingsOfLines(lines: seq<string>): seq<Heading> {
    if lines == [] then [] else LineHeadings(lines[0]) + HeadingsOfLines(lines[1..])
  }

  /** A heading line gives its entry, and the scan goes on after it. */
  lemma {:induction false} HeadingLineOf(line: string, rest: string)
    requires IsLine(line) && IsHeadingLine(line) && EndsLine(rest)
    ensures DocumentHeadings(line + rest) == LineHeadings(line) + AfterLine(rest)
  {
    HeadingLineScan(line, rest);
    HeadingLineEntry(line);
  }

  lemma {:induction false} HeadingLineScan(line: string, rest: string)
    requires IsLine(line) && IsHeadingLine(line) && EndsLine(rest)
    ensures var k := HashRun(line, 0);
      DocumentHeadings(line + rest) == [HeadingFor(line[k + 1..], k)] + AfterLine(rest)
  {
    HeadingLineFacts(line, rest);
    FirstLineHeadings(line + rest, HashRun(line, 0), |line|);
  }

  lemma {:induction false} HeadingLineEntry(line: string)
    requires IsHeadingLine(line)
    ensures var k := HashRun(line, 0);
      LineHeadings(line) == [HeadingFor(line[k + 1..], k)]
  {
  }

  lemma {:induction false} HeadingLineFacts(line: string, rest: string)
    requires IsLine(line) && IsHeadingLine(line) && EndsLine(rest)
    ensures var s := line + rest;
      var k := HashRun(line, 0);
      var e := |line|;
      && 1 <= k && k + 1 < e <= |s|
      && (forall i :: 0 <= i < k ==> s[i] == '#')
      && IsSpace(s[k])
      && (forall i :: k + 1 <= i < e ==> !IsLineTerminator(s[i]))
      && (e == |s| || IsLineTerminator(s[e]))
      && s[k + 1..e] == line[k + 1..]
      && s[e..] == rest
  {
    var s := line + rest;
    var k := HashRun(line, 0);
    HashRunMaximal(line, 0);
    assert forall i :: 0 <= i < |line| ==> s[i] == line[i];
    assert s[k + 1..|line|] == line[k + 1..];
    assert s[|line|..] == rest;
    if rest != [] {
      assert s[|line|] == rest[0];
    }
  }

  lemma {:induction false} PlainLineOf(line: string, rest: string)
    requires IsLine(line) && !IsHeadingLine(line) && !OnlyHashes(line) && EndsLine(rest)
    ensures DocumentHeadings(line + rest) == LineHeadings(line) + AfterLine(rest)
  {
    PlainLine(line, rest);
  }

  lemma {:induction false} OneLine(line: string, rest: string)
    requires IsLine(line) && !OnlyHashes(line) && EndsLine(rest)
    ensures DocumentHeadings(line + rest) == LineHeadings(line) + AfterLine(rest)
  {
    if IsHeadingLine(line) {
      HeadingLineOf(line, rest);
    } else {
      PlainLineOf(line, rest);
    }
  }

  /**
   * Line by line: when no line is made of '#' alone, the headings of the
   * document are the entries of its heading lines, in order.
   */
  lemma {:induction false} DocumentOfLines(lines: seq<string>)
    requires forall i :: 0 <= i < |lines| ==> IsLine(lines[i]) && !OnlyHashes(lines[i])
    ensures DocumentHeadings(JoinLines(lines)) == HeadingsOfLines(lines)
    decreases |lines|
  {
    if |lines| == 0 {
      NoMatchesAtEnd([]);
    } else if |lines| == 1 {
      LastLine(lines);
    } else {
      var rest := "\n" + JoinLines(lines[1..]);
      assert JoinLines(lines) == lines[0] + rest;
      OneLine(lines[0], rest);
      assert rest[1..] == JoinLines(lines[1..]);
      DocumentOfLines(lines[1..]);
    }
  }

  lemma {:induction false} LastLine(lines: seq<string>)
    requires |lines| == 1 && IsLine(lines[0]) && !OnlyHashes(lines[0])
    ensures DocumentHeadings(JoinLines(lines)) == HeadingsOfLines(lines)
  {
    assert JoinLines(lines) == lines[0] + [];
    OneLine(lines[0], []);
    assert HeadingsOfLines(lines) == LineHeadings(lines[0]) + HeadingsOfLines([]);
  }

  // ---------------------------------------------------------------------
  // Examples
  // ---------------------------------------------------------------------

  /** A document with a title, a blank line, a paragraph and a subheading gives two entries. */
  lemma {:induction false} ExtractionTitleAndSub(doc: string)
    requires doc == "# Title\n\nBody\n## Sub"
    ensures DocumentHeadings(doc) == [Heading("title", "Title", 1), Heading("sub", "Sub", 2)]
  {
    var title, blank, body, sub := "# Title", "", "Body", "## Sub";
    var h1, h2 := Heading("title", "Title", 1), Heading("sub", "Sub", 2);
    calc {
      DocumentHeadings(doc);
    == { ExampleJoin(doc, title, blank, body, sub); }
      DocumentHeadings(title + "\n" + (blank + "\n" + (body + "\n" + sub)));
    == { TitleLine(title); SubLine(sub); PlainLines(blank, body); FourLines(title, blank, body, sub); }
      LineHeadings(title) + (LineHeadings(blank) + (LineHeadings(body) + LineHeadings(sub)));
    == { TitleLine(title); SubLine(sub); PlainLines(blank, body); }
      [h1] + ([] + ([] + [h2]));
    ==
      [h1, h2];
    }
  }

  lemma {:induction false} ExampleJoin(doc: string, title: string, blank: string, body: string, sub: string)
    requires doc == "# Title\n\nBody\n## Sub"
    requires title == "# Title" && blank == "" && body == "Body" && sub == "## Sub"
    ensures doc == title + "\n" + (blank + "\n" + (body + "\n" + sub))
  {
  }

  lemma {:induction false} TitleLine(line: string)
    requires line == "# Title"
    ensures IsLine(line) && !OnlyHashes(line)
    ensures LineHeadings(line) == [Heading("title", "Title", 1)]
  {
    WordLine(line, 1, 'T', "itle", "title", "Title");
  }

  lemma {:induction false} SubLine(line: string)
    requires line == "## Sub"
    ensures IsLine(line) && !OnlyHashes(line)
    ensures LineHeadings(line) == [Heading("sub", "Sub", 2)]
  {
    WordLine(line, 2, 'S', "ub", "sub", "Sub");
  }

  lemma {:induction false} WordLine(line: string, k: nat, u: char, w: string, slug: string, title: string)
    requires k >= 1 && IsUpper(u) && forall i :: 0 <= i < |w| ==> 'a' <= w[i] <= 'z'
    requires line == Hashes(k) + [' ', u] + w && title == [u] + w && slug == [LowerChar(u)] + w
    ensures IsLine(line) && !OnlyHashes(line)
    ensures LineHeadings(line) == [Heading(slug, title, k)]
  {
    WordHeadingLine(k, u, w);
  }

  lemma {:induction false} PlainLines(blank: string, body: string)
    requires blank == "" && body == "Body"
    ensures IsLine(blank) && !OnlyHashes(blank) && LineHeadings(blank) == []
    ensures IsLine(body) && !OnlyHashes(body) && LineHeadings(body) == []
  {
    assert HashRun(body, 0) == 0;
  }

  /** Four lines joined by line feeds, none of them made of '#' alone. */
  lemma {:induction false} FourLines(a: string, b: string, c: string, d: string)
    requires IsLine(a) && !OnlyHashes(a) && IsLine(b) && !OnlyHashes(b)
    requires IsLine(c) && !OnlyHashes(c) && IsLine(d) && !OnlyHashes(d)
    ensures DocumentHeadings(a + "\n" + (b + "\n" + (c + "\n" + d)))
      == LineHeadings(a) + (LineHeadings(b) + (LineHeadings(c) + LineHeadings(d)))
  {
    var lines := [a, b, c, d];
    assert lines[1..] == [b, c, d];
    assert [b, c, d][1..] == [c, d];
    assert [c, d][1..] == [d];
    assert [d][1..] == [];
    assert JoinLines([c, d]) == c + "\n" + d;
    assert JoinLines([b, c, d]) == b + "\n" + (c + "\n" + d);
    assert JoinLines(lines) == a + "\n" + (b + "\n" + (c + "\n" + d));
    assert HeadingsOfLines([d]) == LineHeadings(d);
    assert HeadingsOfLines([c, d]) == LineHeadings(c) + LineHeadings(d);
    assert HeadingsOfLines([b, c, d]) == LineHeadings(b) + (LineHeadings(c) + LineHeadings(d));
    assert HeadingsOfLines(lines) == LineHeadings(a) + (LineHeadings(b) + (LineHeadings(c) + LineHeadings(d)));
    DocumentOfLines(lines);
  }

  /** A line of `k` '#', a space and a capitalised word gives one entry, whose slug is the word in lower case. */
  lemma {:induction false} WordHeadingLine(k: nat, u: char, w: string)
    requires k >= 1 && IsUpper(u) && forall i :: 0 <= i < |w| ==> 'a' <= w[i] <= 'z'
    ensures var line := Hashes(k) + [' ', u] + w;
      && IsLine(line) && !OnlyHashes(line)
      && LineHeadings(line) == [Heading([LowerChar(u)] + w, [u] + w, k)]
  {
    var line := Hashes(k) + [' ', u] + w;
    assert forall i :: k + 2 <= i < |line| ==> line[i] == w[i - k - 2];
    assert line[k] == ' ' && line[k + 1] == u;
    HashRunUnique(line, 0, k);
    assert line[k + 1..] == [u] + w;
    assert IsTrimmed([u] + w);
    TrimOfTrimmed([u] + w);
    SlugOfWord(u, w);
  }

  lemma {:induction false} SlugOfWord(u: char, w: string)
    requires IsUpper(u) && forall i :: 0 <= i < |w| ==> 'a' <= w[i] <= 'z'
    ensures Slug([u] + w) == [LowerChar(u)] + w
  {
    assert ([u] + w)[1..] == w;
    LowerOfSlugText(w);
    var t := [LowerChar(u)] + w;
    assert forall i :: 1 <= i < |t| ==> t[i] == w[i - 1];
    StripOfSlugText(t);
    CollapseOfNoSpace(t);
  }

  /** A repeated title gives two entries with the same slug: slugs are not made unique. */
  lemma {:induction false} ExtractionRepeatedTitle(t: string)
    requires t != [] && IsLine(t)
    ensures DocumentHeadings("# " + t + "\n# " + t) == [HeadingFor(t, 1), HeadingFor(t, 1)]
  {
    var line := "# " + t;
    assert IsLine(line) by {
      assert forall i :: 2 <= i < |line| ==> line[i] == t[i - 2];
    }
    HashRunUnique(line, 0, 1);
    assert line[2..] == t;
    assert LineHeadings(line) == [HeadingFor(t, 1)];
    assert HeadingsOfLines([line, line]) == LineHeadings(line) + HeadingsOfLines([line]) by {
      assert [line, line][1..] == [line];
    }
    assert HeadingsOfLines([line]) == LineHeadings(line) + HeadingsOfLines([]) by {
      assert [line][1..] == [];
    }
    assert JoinLines([line, line]) == line + "\n" + line by {
      assert [line, line][1..] == [line];
    }
    assert "\n# " == "\n" + "# ";
    Associative(line, "\n", "# ");
    Associative(line + "\n", "# ", t);
    DocumentOfLines([line, line]);
  }

  /** `\s` may be the line feed, so a lone "#" line takes its title from the next line. */
  lemma {:induction false} ExtractionLineFeedTitle(t: string)
    requires t != [] && IsLine(t)
    ensures DocumentHeadings("#\n" + t) == [HeadingFor(t, 1)]
  {
    var s := "#\n" + t;
    assert forall i :: 2 <= i < |s| ==> s[i] == t[i - 2];
    assert s[2..|s|] == t;
    FirstLineHeadings(s, 1, |s|);
    assert s[|s|..] == [];
    assert [HeadingFor(t, 1)] + [] == [HeadingFor(t, 1)];
  }

  /** "#" directly followed by a word, as in a tag, is not a heading. */
  lemma {:induction false} ExtractionHashTag(t: string)
    requires t != [] && IsLine(t) && !IsSpace(t[0]) && t[0] != '#'
    ensures DocumentHeadings("#" + t) == []
  {
    var line := "#" + t;
    HashRunUnique(line, 0, 1);
    assert line + [] == line;
    PlainLine(line, []);
  }

  /**
   * A '#' run followed by exactly one whitespace character (not a line
   * terminator) and then the end of the line is not a heading: `.+` has
   * nothing left to match.
   */
  lemma {:induction false} ExtractionEmptyTitle(k: nat, c: char, rest: string)
    requires k >= 1 && IsSpace(c) && !IsLineTerminator(c) && EndsLine(rest)
    ensures DocumentHeadings(Hashes(k) + [c] + rest) == AfterLine(rest)
  {
    var line := Hashes(k) + [c];
    HashRunUnique(line, 0, k);
    PlainLine(line, rest);
  }

  /**
   * With two whitespace characters after the '#' run, `.+` matches the
   * second one: the line gives an entry whose title and slug are empty.
   */
  lemma {:induction false} ExtractionBlankTitle(k: nat, c: char, d: char, rest: string)
    requires k >= 1 && IsSpace(c) && !IsLineTerminator(c) && IsSpace(d) && !IsLineTerminator(d)
    requires EndsLine(rest)
    ensures DocumentHeadings(Hashes(k) + [c, d] + rest) == [Heading([], [], k)] + AfterLine(rest)
  {
    var line := Hashes(k) + [c, d];
    HashRunUnique(line, 0, k);
    assert line[k + 1..] == [d];
    assert Trim([d]) == [];
    assert Slug([]) == [];
    HeadingLineOf(line, rest);
  }

}
