/**
 * The Python string operations and the one regular-expression shape the
 * extractors rely on, restricted to ASCII: `str.lower`, `str.title`,
 * `str.strip`, `str.split`, `str.join`, `str.endswith`, the substring test
 * `sub in s`, and a case-insensitive search for `\b` + literal + `\b`.
 */
module Strings {

  /** The characters `\w` matches: ASCII letters, digits and underscore. */
  predicate IsWordChar(c: char) {
    ('a' <= c <= 'z') || ('A' <= c <= 'Z') || ('0' <= c <= '9') || c == '_'
  }

  /** The characters `\d` matches. */
  predicate IsDigit(c: char) {
    '0' <= c <= '9'
  }

  predicate IsLetter(c: char) {
    ('a' <= c <= 'z') || ('A' <= c <= 'Z')
  }

  /**
   * The characters `str.isspace` and `\s` accept: tab, line feed, vertical
   * tab, form feed, carriage return (9-13), the separators 28-31 and space.
   */
  predicate IsSpace(c: char) {
    (9 <= c as int <= 13) || (28 <= c as int <= 32)
  }

  /** `str.lower` on one character. */
  function Lower(c: char): (d: char)
    ensures !('A' <= d <= 'Z')
    ensures IsWordChar(d) == IsWordChar(c) && IsLetter(d) == IsLetter(c)
    ensures IsSpace(d) == IsSpace(c)
    ensures c == d || ('A' <= c <= 'Z' && 'a' <= d <= 'z')
  {
    if 'A' <= c <= 'Z' then (c as int - 'A' as int + 'a' as int) as char else c
  }

  /** `str.upper` on one character. */
  function Upper(c: char): (d: char)
    ensures !('a' <= d <= 'z')
    ensures Lower(d) == Lower(c)
  {
    if 'a' <= c <= 'z' then (c as int - 'a' as int + 'A' as int) as char else c
  }

  /** `s.lower()`. */
  function LowerStr(s: string): (r: string)
    ensures |r| == |s|
    ensures forall i :: 0 <= i < |s| ==> r[i] == Lower(s[i])
    ensures forall i :: 0 <= i < |r| ==> !('A' <= r[i] <= 'Z')
  {
    seq(|s|, i requires 0 <= i < |s| => Lower(s[i]))
  }

  /** Lower-casing commutes with taking a slice. */
  lemma LowerSlice(s: string, i: int, j: int)
    requires 0 <= i <= j <= |s|
    ensures LowerStr(s)[i..j] == LowerStr(s[i..j])
  {
  }

  /** Lower-casing twice is lower-casing once. */
  lemma LowerStrIdempotent(s: string)
    ensures LowerStr(LowerStr(s)) == LowerStr(s)
  {
  }

  /** A string without upper-case letters is its own lower-case form. */
  lemma LowerOfLowercase(s: string)
    requires forall i :: 0 <= i < |s| ==> !('A' <= s[i] <= 'Z')
    ensures LowerStr(s) == s
  {
  }

  /** `s.title()`: a letter is upper-cased when the character before it is not a letter, lower-cased otherwise. */
  function TitleCase(s: string): (r: string)
    ensures |r| == |s|
    ensures forall i :: 0 <= i < |s| && (i == 0 || !IsLetter(s[i - 1])) ==> !('a' <= r[i] <= 'z')
    ensures forall i :: 0 < i < |s| && IsLetter(s[i - 1]) ==> !('A' <= r[i] <= 'Z')
  {
    seq(|s|, i requires 0 <= i < |s| => if i == 0 || !IsLetter(s[i - 1]) then Upper(s[i]) else Lower(s[i]))
  }

  /** A single lower-case word title-cases to its first letter in capitals followed by the rest unchanged. */
  lemma TitleCaseWord(w: string)
    requires |w| > 0 && forall i :: 0 <= i < |w| ==> 'a' <= w[i] <= 'z'
    ensures TitleCase(w) == [Upper(w[0])] + w[1..]
  {
    var t := TitleCase(w);
    assert |t| == |w|;
    forall i | 1 <= i < |w| ensures t[i] == w[i] {
      assert IsLetter(w[i - 1]);
    }
  }

  /** `s.endswith(suffix)`. */
  function EndsWith(s: string, suffix: string): (b: bool)
    ensures b <==> exists front :: s == front + suffix
  {
    var b := |suffix| <= |s| && s[|s| - |suffix|..] == suffix;
    assert b ==> s == s[..|s| - |suffix|] + suffix;
    b
  }

  /** sub occurs in s starting at index i. */
  predicate OccursAt(s: string, sub: string, i: int) {
    0 <= i && i + |sub| <= |s| && s[i..i + |sub|] == sub
  }

  /** `sub in s`: some index of s starts an occurrence of sub. */
  function Contains(s: string, sub: string): (b: bool)
    ensures b <==> exists i :: OccursAt(s, sub, i)
  {
    ContainsFrom(s, sub, 0)
  }

  /** Whether sub occurs in s at an index no smaller than from. */
  function ContainsFrom(s: string, sub: string, from: nat): (b: bool)
    ensures b <==> exists i :: from <= i && OccursAt(s, sub, i)
    decreases |s| - from
  {
    if from + |sub| > |s| then false
    else OccursAt(s, sub, from) || ContainsFrom(s, sub, from + 1)
  }

  /** The character at index p exists and is a word character. */
  predicate WordCharAt(s: string, p: int) {
    0 <= p < |s| && IsWordChar(s[p])
  }

  /** `\b` holds at position p (between s[p-1] and s[p]): exactly one side is a word character; the ends of s count as non-word. */
  predicate IsBoundary(s: string, p: int) {
    WordCharAt(s, p - 1) != WordCharAt(s, p)
  }

  /** The regular expression `\b` + w + `\b` with IGNORECASE matches s at index i. */
  predicate WholeWordAt(s: string, w: string, i: int) {
    && 0 <= i && i + |w| <= |s|
    && IsBoundary(s, i)
    && LowerStr(s[i..i + |w|]) == LowerStr(w)
    && IsBoundary(s, i + |w|)
  }

  /** `re.search(r"\b" + re.escape(w) + r"\b", s, re.IGNORECASE)` finds a match. */
  function HasWholeWord(s: string, w: string): (b: bool)
    ensures b <==> exists i :: WholeWordAt(s, w, i)
  {
    WholeWordFrom(s, w, 0)
  }

  /** Whether `\b` + w + `\b` matches s at an index no smaller than from. */
  function WholeWordFrom(s: string, w: string, from: nat): (b: bool)
    ensures b <==> exists i :: from <= i && WholeWordAt(s, w, i)
    decreases |s| - from
  {
    if from + |w| > |s| then false
    else WholeWordAt(s, w, from) || WholeWordFrom(s, w, from + 1)
  }

  /** IGNORECASE: two texts that agree once lower-cased contain the same whole words. */
  lemma WholeWordIgnoresCase(s: string, t: string, w: string)
    requires LowerStr(s) == LowerStr(t)
    ensures HasWholeWord(s, w) == HasWholeWord(t, w)
  {
    assert |s| == |LowerStr(s)| == |t|;
    forall p | 0 <= p < |s| ensures IsWordChar(s[p]) == IsWordChar(t[p]) {
      assert LowerStr(s)[p] == LowerStr(t)[p];
    }
    forall i | WholeWordAt(s, w, i) ensures WholeWordAt(t, w, i) {
      LowerSlice(s, i, i + |w|);
      LowerSlice(t, i, i + |w|);
    }
    forall i | WholeWordAt(t, w, i) ensures WholeWordAt(s, w, i) {
      LowerSlice(s, i, i + |w|);
      LowerSlice(t, i, i + |w|);
    }
  }

  /** `s.lstrip()`. */
  function TrimStart(s: string): (r: string)
    ensures r == [] || !IsSpace(r[0])
    ensures |r| <= |s| && r == s[|s| - |r|..]
    ensures forall i :: 0 <= i < |s| - |r| ==> IsSpace(s[i])
    ensures s == [] || !IsSpace(s[0]) ==> r == s
  {
    if |s| > 0 && IsSpace(s[0]) then TrimStart(s[1..]) else s
  }

  /** `s.rstrip()`. */
  function TrimEnd(s: string): (r: string)
    ensures r == [] || !IsSpace(r[|r| - 1])
    ensures |r| <= |s| && r == s[..|r|]
    ensures forall i :: |r| <= i < |s| ==> IsSpace(s[i])
    ensures s == [] || !IsSpace(s[|s| - 1]) ==> r == s
  {
    if |s| > 0 && IsSpace(s[|s| - 1]) then TrimEnd(s[..|s| - 1]) else s
  }

  /** `s.strip()`: leading and trailing whitespace removed. */
  function Strip(s: string): (r: string)
    ensures r == [] || (!IsSpace(r[0]) && !IsSpace(r[|r| - 1]))
    ensures (s == [] || (!IsSpace(s[0]) && !IsSpace(s[|s| - 1]))) ==> r == s
    ensures exists i :: StrippedAt(s, r, i)
  {
    var front := TrimStart(s);
    var r := TrimEnd(front);
    assert r != [] ==> r[0] == front[0];
    assert StrippedAt(s, r, |s| - |front|);
    r
  }

  /** r is the slice of s at index i, and everything of s outside that slice is whitespace. */
  predicate StrippedAt(s: string, r: string, i: int) {
    && 0 <= i && i + |r| <= |s| && r == s[i..i + |r|]
    && (forall k :: 0 <= k < i ==> IsSpace(s[k]))
    && (forall k :: i + |r| <= k < |s| ==> IsSpace(s[k]))
  }

  /** `sep.join(xs)`. */
  function Join(xs: seq<string>, sep: string): (r: string)
    ensures xs == [] ==> r == []
    ensures |xs| == 1 ==> r == xs[0]
    ensures |xs| >= 1 ==> xs[0] <= r
  {
    if |xs| == 0 then []
    else if |xs| == 1 then xs[0]
    else xs[0] + sep + Join(xs[1..], sep)
  }

  /** `s.split(sep)` for a one-character separator: the pieces between separators, at least one, none containing sep. */
  function Split(s: string, sep: char): (pieces: seq<string>)
    ensures |pieces| >= 1
    ensures forall k :: 0 <= k < |pieces| ==> sep !in pieces[k]
  {
    if s == [] then [[]]
    else
      var rest := Split(s[1..], sep);
      if s[0] == sep then [[]] + rest
      else [[s[0]] + rest[0]] + rest[1..]
  }

  /** Joining the pieces of a split with the separator gives back the original string. */
  lemma {:induction false} JoinSplit(s: string, sep: char)
    ensures Join(Split(s, sep), [sep]) == s
  {
    if s != [] {
      var rest := Split(s[1..], sep);
      JoinSplit(s[1..], sep);
      if s[0] == sep {
        assert Split(s, sep) == [[]] + rest;
        JoinCons([], rest, [sep]);
        assert s == [sep] + s[1..];
      } else {
        var pieces := [[s[0]] + rest[0]] + rest[1..];
        assert Split(s, sep) == pieces;
        if |rest| == 1 {
          assert Join(rest, [sep]) == rest[0];
        } else {
          assert Join(rest, [sep]) == rest[0] + [sep] + Join(rest[1..], [sep]);
          assert pieces[1..] == rest[1..];
        }
        assert s == [s[0]] + s[1..];
      }
    }
  }

  /** A join starts with the first piece's first character. */
  lemma JoinHead(xs: seq<string>, sep: string)
    requires |xs| > 0 && |xs[0]| > 0
    ensures |Join(xs, sep)| > 0 && Join(xs, sep)[0] == xs[0][0]
  {
  }

  /** Unfolding Join at the front of a list of at least two. */
  lemma JoinCons(x: string, xs: seq<string>, sep: string)
    requires |xs| >= 1
    ensures Join([x] + xs, sep) == x + sep + Join(xs, sep)
  {
    assert ([x] + xs)[1..] == xs;
  }

  /** Splitting a join of comma-free pieces gives back the pieces. */
  lemma {:induction false} SplitJoin(xs: seq<string>, sep: char)
    requires |xs| >= 1
    requires forall k :: 0 <= k < |xs| ==> sep !in xs[k]
    ensures Split(Join(xs, [sep]), sep) == xs
  {
    if |xs| == 1 {
      SplitNoSeparator(xs[0], sep);
    } else {
      SplitJoin(xs[1..], sep);
      SplitAfterPiece(xs[0], Join(xs[1..], [sep]), sep);
      assert xs == [xs[0]] + xs[1..];
    }
  }

  /** A string without the separator splits into itself alone. */
  lemma {:induction false} SplitNoSeparator(s: string, sep: char)
    requires sep !in s
    ensures Split(s, sep) == [s]
  {
    if s != [] {
      SplitNoSeparator(s[1..], sep);
      assert s == [s[0]] + s[1..];
    }
  }

  /** Splitting a + sep + b, where a has no separator, yields a followed by the pieces of b. */
  lemma {:induction false} SplitAfterPiece(a: string, b: string, sep: char)
    requires sep !in a
    ensures Split(a + [sep] + b, sep) == [a] + Split(b, sep)
  {
    if a == [] {
      assert [sep] + b == a + [sep] + b;
      assert ([sep] + b)[1..] == b;
    } else {
      SplitAfterPiece(a[1..], b, sep);
      assert (a + [sep] + b)[1..] == a[1..] + [sep] + b;
      assert [a[0]] + a[1..] == a;
    }
  }
}
