/**
 * The parts of Python's `str` and `re` that the scorer and its helpers use:
 * `in`, `replace`, `strip`, `lower`, `join`, `re.sub('[ ]+', ' ', ...)`,
 * and maximal runs of a character class (what a greedy `[...]+` consumes).
 */
module Text {

  /** `c.isspace()` in Python 3: the characters that `str.strip()` removes. */
  predicate IsPyWhitespace(c: char) {
    || c == ' '
    || ('\t' <= c <= '\r')
    || ('\U{1C}' <= c <= '\U{1F}')
    || c == '\U{85}' || c == '\U{A0}' || c == '\U{1680}'
    || ('\U{2000}' <= c <= '\U{200A}')
    || c == '\U{2028}' || c == '\U{2029}' || c == '\U{202F}' || c == '\U{205F}' || c == '\U{3000}'
  }

  predicate IsNotWhitespace(c: char) { !IsPyWhitespace(c) }

  /** The class `[a-zA-Z0-9_]`, which is also the ASCII part of `\w`. */
  predicate IsWordChar(c: char) {
    ('a' <= c <= 'z') || ('A' <= c <= 'Z') || ('0' <= c <= '9') || c == '_'
  }

  /** The ASCII part of `\d`. */
  predicate IsDigit(c: char) { '0' <= c <= '9' }

  predicate IsAsciiUpper(c: char) { 'A' <= c <= 'Z' }

  /** Neither a space nor a newline. */
  predicate IsVisible(c: char) { c != ' ' && c != '\n' }

  predicate IsNotSpace(c: char) { c != ' ' }

  /** Python's `p in s`. */
  predicate Occurs(s: string, p: string)
    decreases |s|
  {
    |p| <= |s| && (s[..|p|] == p || (0 < |s| && Occurs(s[1..], p)))
  }

  lemma {:induction false} OccursInSuffix(s: string, k: nat, p: string)
    requires k <= |s| && Occurs(s[k..], p)
    ensures Occurs(s, p)
    decreases k
  {
    if k > 0 {
      assert s[1..][k - 1..] == s[k..];
      OccursInSuffix(s[1..], k - 1, p);
    }
  }

  lemma {:induction false} OccursInPrefix(s: string, k: nat, p: string)
    requires k <= |s| && Occurs(s[..k], p)
    ensures Occurs(s, p)
    decreases k
  {
    if s[..k][..|p|] != p {
      assert s[..k][1..] == s[1..][..k - 1];
      OccursInPrefix(s[1..], k - 1, p);
    }
  }

  lemma OccursAt(s: string, p: string, k: nat)
    requires k + |p| <= |s| && s[k..k + |p|] == p
    ensures Occurs(s, p)
  {
    assert s[k..][..|p|] == p;
    OccursInSuffix(s, k, p);
  }

  lemma {:induction false} AbsentWithoutFirstChar(s: string, p: string)
    requires |p| > 0 && p[0] !in s
    ensures !Occurs(s, p)
    decreases |s|
  {
    if |p| <= |s| {
      assert s[..|p|][0] == s[0];
      AbsentWithoutFirstChar(s[1..], p);
    }
  }

  lemma {:induction false} AbsentWithoutChar(s: string, p: string, k: nat)
    requires k < |p| && p[k] !in s
    ensures !Occurs(s, p)
    decreases |s|
  {
    if |p| <= |s| {
      assert s[..|p|][k] == s[k];
      AbsentWithoutChar(s[1..], p, k);
    }
  }

  lemma OccursSameLength(s: string, p: string)
    requires |s| == |p|
    ensures Occurs(s, p) <==> s == p
  {
  }

  /** A text that lacks a prefix of the pattern lacks the pattern. */
  lemma {:induction false} OccursPatternPrefix(s: string, p: string, n: nat)
    requires n <= |p| && Occurs(s, p)
    ensures Occurs(s, p[..n])
    decreases |s|
  {
    if s[..|p|] == p {
      assert s[..n] == p[..n];
    } else {
      OccursPatternPrefix(s[1..], p, n);
    }
  }

  /** `[a, b]` is absent when no position holds `a` followed by `b`. */
  lemma {:induction false} PairFreeByIndex(s: string, a: char, b: char)
    requires forall i | 0 <= i < |s| - 1 :: !(s[i] == a && s[i + 1] == b)
    ensures !Occurs(s, [a, b])
    decreases |s|
  {
    if |s| >= 2 {
      assert s[..2] != [a, b] by { assert !(s[0] == a && s[1] == b); }
      forall i | 0 <= i < |s[1..]| - 1 ensures !(s[1..][i] == a && s[1..][i + 1] == b) {
        assert s[1..][i] == s[i + 1] && s[1..][i + 1] == s[i + 2];
      }
      PairFreeByIndex(s[1..], a, b);
    }
  }

  /** A pattern whose first two characters never appear together in `s` does not occur in `s`. */
  lemma AbsentByLeadingPair(s: string, p: string)
    requires |p| >= 2
    requires forall i | 0 <= i < |s| - 1 :: !(s[i] == p[0] && s[i + 1] == p[1])
    ensures !Occurs(s, p)
  {
    PairFreeByIndex(s, p[0], p[1]);
    assert p[..2] == [p[0], p[1]];
    if Occurs(s, p) { OccursPatternPrefix(s, p, 2); }
  }

  /** The characters of a two-character pattern `[a, b]` never meet across a concatenation. */
  lemma {:induction false} PairFreeConcat(x: string, y: string, a: char, b: char)
    requires !Occurs(x, [a, b]) && !Occurs(y, [a, b])
    requires |x| == 0 || |y| == 0 || !(x[|x| - 1] == a && y[0] == b)
    ensures !Occurs(x + y, [a, b])
    decreases |x|
  {
    if |x| == 0 {
      assert x + y == y;
    } else {
      assert (x + y)[1..] == x[1..] + y;
      PairFreeConcat(x[1..], y, a, b);
      if |x| == 1 {
        assert |y| > 0 ==> (x + y)[..2] == [x[0], y[0]];
      } else {
        assert (x + y)[..2] == x[..2];
      }
    }
  }

  /**
   * Python's `s.replace(pat, rep)` for a non-empty pattern: occurrences are
   * found from the left and do not overlap. Text without the pattern is returned as is.
   */
  function ReplaceAll(s: string, pat: string, rep: string): (r: string)
    requires |pat| > 0
    ensures !Occurs(s, pat) ==> r == s
    ensures |rep| <= |pat| ==> |r| <= |s|
    ensures |rep| == |pat| ==> |r| == |s|
    decreases |s|
  {
    if |s| < |pat| then s
    else if s[..|pat|] == pat then rep + ReplaceAll(s[|pat|..], pat, rep)
    else [s[0]] + ReplaceAll(s[1..], pat, rep)
  }

  lemma HeadOfReplaceAll(s: string, pat: string, rep: string)
    requires |pat| > 0 && |rep| > 0 && |s| > 0
    ensures var r := ReplaceAll(s, pat, rep); |r| > 0 && (r[0] == s[0] || r[0] == rep[0])
  {
  }

  /**
   * Replacing with a text that cannot start, end or contain the pair `[a, b]`
   * leaves no pair behind: none was there, or the pair was the pattern itself.
   */
  lemma {:induction false} ReplaceAllPairFree(s: string, pat: string, rep: string, a: char, b: char)
    requires |pat| > 0 && |rep| > 0
    requires !Occurs(s, [a, b]) || pat == [a, b]
    requires !Occurs(rep, [a, b]) && rep[|rep| - 1] != a && rep[0] != b
    ensures !Occurs(ReplaceAll(s, pat, rep), [a, b])
    decreases |s|
  {
    if |s| < |pat| {
    } else if s[..|pat|] == pat {
      if !Occurs(s, [a, b]) {
        if Occurs(s[|pat|..], [a, b]) { OccursInSuffix(s, |pat|, [a, b]); }
      }
      ReplaceAllPairFree(s[|pat|..], pat, rep, a, b);
      PairFreeConcat(rep, ReplaceAll(s[|pat|..], pat, rep), a, b);
    } else {
      var rest := ReplaceAll(s[1..], pat, rep);
      ReplaceAllPairFree(s[1..], pat, rep, a, b);
      if |rest| > 0 {
        HeadOfReplaceAll(s[1..], pat, rep);
      }
      PairFreeConcat([s[0]], rest, a, b);
    }
  }

  /**
   * Replacing `[a, b, c]` by `[a, c]` (three distinct characters) leaves no
   * `[a2, b, c]` behind: the rewritten pattern itself is gone, and any other
   * `a2` cannot be put in front of a `b` that is followed by `c`.
   */
  lemma OccursCons(x: char, t: string, p: string)
    ensures Occurs([x] + t, p) <==> (|p| <= |t| + 1 && ([x] + t)[..|p|] == p) || (|p| <= |t| && Occurs(t, p))
  {
    assert ([x] + t)[1..] == t;
  }

  lemma {:induction false} ReplaceAllDropsMiddle(s: string, a: char, b: char, c: char, a2: char)
    requires a != b && b != c && a != c && a2 != b && a2 != c
    requires a2 == a || !Occurs(s, [a2, b, c])
    ensures !Occurs(ReplaceAll(s, [a, b, c], [a, c]), [a2, b, c])
    decreases |s|
  {
    var pat, rep, p2 := [a, b, c], [a, c], [a2, b, c];
    if |s| < 3 {
    } else if s[..3] == pat {
      if a2 != a && Occurs(s[3..], p2) { OccursInSuffix(s, 3, p2); }
      ReplaceAllDropsMiddle(s[3..], a, b, c, a2);
      NoTripleAfterPair(a, c, ReplaceAll(s[3..], pat, rep), p2);
    } else {
      var t := ReplaceAll(s[1..], pat, rep);
      assert ReplaceAll(s, pat, rep) == [s[0]] + t;
      if a2 != a { OccursInSuffixOfOne(s, p2); }
      ReplaceAllDropsMiddle(s[1..], a, b, c, a2);
      assert !Occurs(t, p2);
      OccursCons(s[0], t, p2);
      HeadTripleCopied(s, a, b, c, a2);
      PrefixOccurs(s, p2);
      assert !(|t| >= 2 && ([s[0]] + t)[..3] == p2);
    }
  }

  lemma OccursInSuffixOfOne(s: string, p: string)
    requires 0 < |s| && !Occurs(s, p)
    ensures !Occurs(s[1..], p)
  {
  }

  /** A `[x, b, c]` at the head of `[s[0]] + ReplaceAll(s[1..], [a, b, c], [a, c])` was at the head of `s`. */
  lemma HeadTripleCopied(s: string, a: char, b: char, c: char, x: char)
    requires a != b && a != c && |s| >= 3
    ensures var t := ReplaceAll(s[1..], [a, b, c], [a, c]);
      |t| >= 2 && ([s[0]] + t)[..3] == [x, b, c] ==> s[..3] == [x, b, c]
  {
    var t := ReplaceAll(s[1..], [a, b, c], [a, c]);
    ReplaceAllStartingMiddle(s[1..], a, b, c);
    if |t| >= 2 && ([s[0]] + t)[..3] == [x, b, c] {
      assert ([s[0]] + t)[..3][1] == t[0] && ([s[0]] + t)[..3][2] == t[1];
      assert s[1..][0] == s[1] && s[1..][1] == s[2];
      ThreeAtHead(s, x, b, c);
    }
  }

  lemma ThreeAtHead(s: string, x: char, y: char, z: char)
    ensures |s| >= 3 && s[0] == x && s[1] == y && s[2] == z ==> s[..3] == [x, y, z]
  {
  }

  lemma NoTripleAfterPair(a: char, c: char, t: string, p: string)
    requires |p| == 3 && p[0] != c && p[1] != c && !Occurs(t, p)
    ensures !Occurs([a, c] + t, p)
  {
    OccursCons(c, t, p);
    OccursCons(a, [c] + t, p);
    assert [a, c] + t == [a] + ([c] + t);
    assert |t| >= 2 ==> ([c] + t)[..3][0] == c;
    assert |t| >= 1 ==> ([a] + ([c] + t))[..3][1] == c;
  }

  /** Where the replacement `[a, c]` starts, no `[b, c]` can. */
  lemma ReplaceAllStartingMiddle(u: string, a: char, b: char, c: char)
    requires a != b && a != c
    ensures var t := ReplaceAll(u, [a, b, c], [a, c]);
      |t| >= 2 && t[0] == b && t[1] == c ==> |u| >= 2 && u[0] == b && u[1] == c
  {
    var pat, rep := [a, b, c], [a, c];
    if |u| > 0 {
      HeadOfReplaceAllCases(u, pat, rep);
      if !(|u| >= 3 && u[..3] == pat) && |u| > 1 {
        assert ReplaceAll(u, pat, rep) == [u[0]] + ReplaceAll(u[1..], pat, rep);
        HeadOfReplaceAllCases(u[1..], pat, rep);
      }
    }
  }

  lemma HeadOfReplaceAllCases(s: string, pat: string, rep: string)
    requires |pat| > 0 && |rep| > 0 && |s| > 0
    ensures var r := ReplaceAll(s, pat, rep);
      |r| > 0 && r[0] == (if |pat| <= |s| && s[..|pat|] == pat then rep[0] else s[0])
  {
  }

  /** No character of `p` occurs in `a`. */
  predicate Disjoint(a: string, p: string) {
    forall j | 0 <= j < |p| :: p[j] !in a
  }

  lemma {:induction false} NoOccurrenceAcross(x: string, t: string, p: string)
    requires |p| > 0 && Disjoint(x, p) && !Occurs(t, p)
    ensures !Occurs(x + t, p)
    decreases |x|
  {
    if |x| > 0 {
      OccursCons(x[0], x[1..] + t, p);
      assert x + t == [x[0]] + (x[1..] + t);
      assert x[0] in x;
      if |p| <= |x + t| { assert (x + t)[..|p|][0] == x[0]; }
      NoOccurrenceAcross(x[1..], t, p);
    } else {
      assert x + t == t;
    }
  }

  /** An output prefix free of the replacement's characters was copied from the input. */
  lemma {:induction false} CopiedPrefix(s: string, pat: string, rep: string, m: nat)
    requires |pat| > 0 && |rep| > 0
    requires m <= |ReplaceAll(s, pat, rep)|
    requires forall k | 0 <= k < m :: ReplaceAll(s, pat, rep)[k] !in rep
    ensures m <= |s| && ReplaceAll(s, pat, rep)[..m] == s[..m]
    decreases m
  {
    if m > 0 {
      var r := ReplaceAll(s, pat, rep);
      if |s| < |pat| {
      } else {
        HeadOfReplaceAllCases(s, pat, rep);
        assert r[0] !in rep;
        assert r == [s[0]] + ReplaceAll(s[1..], pat, rep);
        var t := ReplaceAll(s[1..], pat, rep);
        forall k | 0 <= k < m - 1 ensures t[k] !in rep {
          assert t[k] == r[k + 1];
        }
        CopiedPrefix(s[1..], pat, rep, m - 1);
        assert r[..m] == [s[0]] + t[..m - 1];
        assert s[..m] == [s[0]] + s[1..][..m - 1];
      }
    }
  }

  /**
   * A replacement that shares no character with `p` cannot create `p`; and when
   * `p` is the pattern itself, no occurrence is left.
   */
  lemma {:induction false} ReplaceAllKeepsAbsent(s: string, pat: string, rep: string, p: string)
    requires |pat| > 0 && |rep| > 0 && |p| > 0 && Disjoint(rep, p)
    requires p == pat || !Occurs(s, p)
    ensures !Occurs(ReplaceAll(s, pat, rep), p)
    decreases |s|
  {
    var r := ReplaceAll(s, pat, rep);
    if |s| < |pat| {
      if p == pat { assert !Occurs(s, p); }
    } else if s[..|pat|] == pat {
      if p != pat && Occurs(s[|pat|..], p) { OccursInSuffix(s, |pat|, p); }
      ReplaceAllKeepsAbsent(s[|pat|..], pat, rep, p);
      NoOccurrenceAcross(rep, ReplaceAll(s[|pat|..], pat, rep), p);
    } else {
      ReplaceAllKeepsAbsent(s[1..], pat, rep, p);
      CopiedHeadStartsNothing(s, pat, rep, p);
    }
  }

  lemma CopiedHeadStartsNothing(s: string, pat: string, rep: string, p: string)
    requires |pat| > 0 && |rep| > 0 && |p| > 0 && Disjoint(rep, p)
    requires |s| >= |pat| && s[..|pat|] != pat
    requires p == pat || !Occurs(s, p)
    requires !Occurs(ReplaceAll(s[1..], pat, rep), p)
    ensures !Occurs(ReplaceAll(s, pat, rep), p)
  {
    var t := ReplaceAll(s[1..], pat, rep);
    var u := [s[0]] + t;
    assert ReplaceAll(s, pat, rep) == u;
    OccursCons(s[0], t, p);
    HeadMatchCopied(s, pat, rep, p);
    PrefixOccurs(s, p);
  }

  /** A prefix equal to `p` is an occurrence. */
  lemma PrefixOccurs(s: string, p: string)
    ensures |p| <= |s| && s[..|p|] == p ==> Occurs(s, p)
  {
  }

  /** A match of `p` at the head of the output, when `rep` has none of `p`'s characters, was in the input. */
  lemma HeadMatchCopied(s: string, pat: string, rep: string, p: string)
    requires |pat| > 0 && |rep| > 0 && |p| > 0 && Disjoint(rep, p) && |s| > 0
    ensures var u := [s[0]] + ReplaceAll(s[1..], pat, rep);
      |p| <= |u| && u[..|p|] == p ==> |p| <= |s| && s[..|p|] == p
  {
    var t := ReplaceAll(s[1..], pat, rep);
    var u := [s[0]] + t;
    if |p| <= |u| && u[..|p|] == p {
      forall k | 0 <= k < |p| - 1 ensures t[k] !in rep {
        assert t[k] == u[k + 1] == u[..|p|][k + 1] == p[k + 1];
      }
      CopiedPrefix(s[1..], pat, rep, |p| - 1);
      SamePrefix(s, t, p);
    }
  }

  lemma SamePrefix(s: string, t: string, p: string)
    requires 0 < |p| <= |s| && |p| - 1 <= |t| && t[..|p| - 1] == s[1..][..|p| - 1]
    requires |p| <= |t| + 1 && ([s[0]] + t)[..|p|] == p
    ensures s[..|p|] == p
  {
    forall k | 0 <= k < |p| ensures s[k] == p[k] {
      if k > 0 {
        assert s[k] == s[1..][..|p| - 1][k - 1] == t[..|p| - 1][k - 1];
      }
      assert p[k] == ([s[0]] + t)[k];
    }
  }

  /** `s` with the characters outside `keep` removed. */
  function Filter(s: string, keep: char -> bool): (r: string)
    ensures |r| <= |s|
    decreases |s|
  {
    if |s| == 0 then [] else (if keep(s[0]) then [s[0]] else []) + Filter(s[1..], keep)
  }

  lemma {:induction false} FilterConcat(x: string, y: string, keep: char -> bool)
    ensures Filter(x + y, keep) == Filter(x, keep) + Filter(y, keep)
    decreases |x|
  {
    if |x| > 0 {
      assert (x + y)[1..] == x[1..] + y;
      FilterConcat(x[1..], y, keep);
    } else {
      assert x + y == y;
    }
  }

  /** A replacement that agrees with its pattern on the kept characters changes nothing else. */
  lemma {:induction false} ReplaceAllFilter(s: string, pat: string, rep: string, keep: char -> bool)
    requires |pat| > 0 && Filter(pat, keep) == Filter(rep, keep)
    ensures Filter(ReplaceAll(s, pat, rep), keep) == Filter(s, keep)
    decreases |s|
  {
    if |s| < |pat| {
    } else if s[..|pat|] == pat {
      ReplaceAllFilter(s[|pat|..], pat, rep, keep);
      FilterConcat(rep, ReplaceAll(s[|pat|..], pat, rep), keep);
      FilterConcat(pat, s[|pat|..], keep);
      assert s == pat + s[|pat|..];
    } else {
      ReplaceAllFilter(s[1..], pat, rep, keep);
      FilterConcat([s[0]], ReplaceAll(s[1..], pat, rep), keep);
      FilterConcat([s[0]], s[1..], keep);
      assert s == [s[0]] + s[1..];
    }
  }

  /** No occurrence can start inside a prefix that lacks the pattern's first character. */
  lemma ReplaceAllSkipsPrefix(x: string, y: string, pat: string, rep: string)
    requires |pat| > 0 && pat[0] !in x
    ensures ReplaceAll(x + y, pat, rep) == x + ReplaceAll(y, pat, rep)
  {
    ReplaceAllSkipsPrefixAt(x, y, pat, rep, 0);
  }

  /**
   * No occurrence can start inside a prefix that lacks the pattern's `k`-th
   * character, when the text after the prefix does not hold that character
   * in its first `k` places either.
   */
  lemma {:induction false} ReplaceAllSkipsPrefixAt(x: string, t: string, pat: string, rep: string, k: nat)
    requires k < |pat| && pat[k] !in x
    requires forall j | 0 <= j < k && j < |t| :: t[j] != pat[k]
    ensures ReplaceAll(x + t, pat, rep) == x + ReplaceAll(t, pat, rep)
    decreases |x|
  {
    var s := x + t;
    if |x| > 0 {
      NoMatchAtHead(x, t, pat, k);
      ReplaceAllPastHead(s, pat, rep);
      assert s[1..] == x[1..] + t;
      ReplaceAllSkipsPrefixAt(x[1..], t, pat, rep, k);
      Assoc([x[0]], x[1..], ReplaceAll(t, pat, rep));
      assert [x[0]] + x[1..] == x;
    } else {
      assert s == t;
    }
  }

  /** Without a match at the head, the first character is copied. */
  lemma ReplaceAllPastHead(s: string, pat: string, rep: string)
    requires |pat| > 0 && |s| > 0 && !(|pat| <= |s| && s[..|pat|] == pat)
    ensures ReplaceAll(s, pat, rep) == [s[0]] + ReplaceAll(s[1..], pat, rep)
  {
  }

  lemma NoMatchAtHead(x: string, t: string, pat: string, k: nat)
    requires 0 < |x| && k < |pat| && pat[k] !in x
    requires forall j | 0 <= j < k && j < |t| :: t[j] != pat[k]
    ensures !(|pat| <= |x + t| && (x + t)[..|pat|] == pat)
  {
    var s := x + t;
    if |pat| <= |s| {
      assert s[..|pat|][k] == s[k];
      if k < |x| {
        assert s[k] == x[k];
      } else {
        assert s[k] == t[k - |x|];
      }
    }
  }

  /** A word as long as the pattern but different from it, amid text without the pattern's first character, is kept. */
  lemma ReplaceAllMissesSameLength(x: string, w: string, y: string, pat: string, rep: string)
    requires 0 < |pat| == |w| && w != pat
    requires pat[0] !in x && pat[0] !in w[1..] && pat[0] !in y
    ensures ReplaceAll(x + w + y, pat, rep) == x + w + y
  {
    var t := w + y;
    assert x + w + y == x + t;
    ReplaceAllSkipsPrefix(x, t, pat, rep);
    assert t[..|pat|] == w;
    assert t[1..] == w[1..] + y;
    ReplaceAllWithoutFirstChar(t[1..], pat, rep);
    assert [t[0]] + t[1..] == t;
  }

  /**
   * Replacing the pair `[p, c]` by `[p, C]` changes exactly the `c`s that
   * follow a `p`; every other character stays where it was.
   */
  lemma {:induction false} ReplacePairPointwise(s: string, p: char, c: char, C: char)
    requires p != c
    ensures var r := ReplaceAll(s, [p, c], [p, C]);
      && |r| == |s|
      && forall k | 0 <= k < |s| :: r[k] == (if 0 < k && s[k - 1] == p && s[k] == c then C else s[k])
    decreases |s|
  {
    var pat, rep := [p, c], [p, C];
    var r := ReplaceAll(s, pat, rep);
    if |s| < 2 {
    } else if s[..2] == pat {
      var t := ReplaceAll(s[2..], pat, rep);
      ReplacePairPointwise(s[2..], p, c, C);
      assert r == rep + t;
      forall k | 0 <= k < |s|
        ensures r[k] == (if 0 < k && s[k - 1] == p && s[k] == c then C else s[k])
      {
        if k >= 2 {
          assert r[k] == t[k - 2] && s[2..][k - 2] == s[k];
          if k > 2 { assert s[2..][k - 3] == s[k - 1]; }
          else { assert s[k - 1] == c; }
        } else {
          assert s[k] == pat[k];
        }
      }
    } else {
      var t := ReplaceAll(s[1..], pat, rep);
      ReplacePairPointwise(s[1..], p, c, C);
      assert r == [s[0]] + t;
      forall k | 0 <= k < |s|
        ensures r[k] == (if 0 < k && s[k - 1] == p && s[k] == c then C else s[k])
      {
        if k >= 1 {
          assert r[k] == t[k - 1] && s[1..][k - 1] == s[k];
          if k > 1 { assert s[1..][k - 2] == s[k - 1]; }
          else { assert s[..2] == [s[0], s[1]]; }
        }
      }
    }
  }

  lemma ReplaceAllAtPattern(pat: string, y: string, rep: string)
    requires |pat| > 0
    ensures ReplaceAll(pat + y, pat, rep) == rep + ReplaceAll(y, pat, rep)
  {
    assert (pat + y)[..|pat|] == pat;
    assert (pat + y)[|pat|..] == y;
  }

  /** One occurrence, not preceded by the pattern's first character, is replaced and the rest kept. */
  lemma ReplaceAllOnce(x: string, pat: string, y: string, rep: string)
    requires |pat| > 0 && pat[0] !in x && ReplaceAll(y, pat, rep) == y
    ensures ReplaceAll(x + pat + y, pat, rep) == x + rep + y
  {
    Assoc(x, pat, y);
    ReplaceAllSkipsPrefix(x, pat + y, pat, rep);
    ReplaceAllAtPattern(pat, y, rep);
    Assoc(x, rep, y);
  }

  lemma {:induction false} ReplaceAllWithoutFirstChar(s: string, pat: string, rep: string)
    requires |pat| > 0 && pat[0] !in s
    ensures ReplaceAll(s, pat, rep) == s
  {
    ReplaceAllSkipsPrefix(s, "", pat, rep);
    assert s + "" == s;
  }

  /** Python's `s.replace('\n', ' ')`. */
  function NewlinesToSpaces(s: string): (r: string)
    ensures |r| == |s|
    ensures forall i | 0 <= i < |s| :: r[i] == (if s[i] == '\n' then ' ' else s[i])
  {
    seq(|s|, i requires 0 <= i < |s| => if s[i] == '\n' then ' ' else s[i])
  }

  /**
   * `re.sub('[ ]+', ' ', s)`: every maximal run of spaces becomes one space.
   * The run's last space is the one kept.
   */
  function Squeeze(s: string): (r: string)
    ensures |r| <= |s|
    ensures |s| > 0 ==> |r| > 0 && r[0] == s[0]
    decreases |s|
  {
    if |s| < 2 then s
    else if s[0] == ' ' && s[1] == ' ' then Squeeze(s[1..])
    else [s[0]] + Squeeze(s[1..])
  }

  /** Squeezing works piece by piece when the cut does not follow a space. */
  lemma {:induction false} SqueezeConcat(x: string, t: string)
    requires |x| == 0 || x[|x| - 1] != ' '
    ensures Squeeze(x + t) == Squeeze(x) + Squeeze(t)
    decreases |x|
  {
    var s := x + t;
    if |x| == 0 {
      assert s == t;
    } else if |x| == 1 {
      if |t| == 0 {
        assert s == x;
      } else {
        assert s[0] == x[0] && s[1] == t[0];
        assert s[1..] == t;
      }
    } else {
      assert s[0] == x[0] && s[1] == x[1];
      assert s[1..] == x[1..] + t;
      SqueezeConcat(x[1..], t);
    }
  }

  /** A run of spaces in front of a non-space becomes exactly one space. */
  lemma {:induction false} SqueezeSpaceRun(b: string, y: string)
    requires |b| > 0 && forall k | 0 <= k < |b| :: b[k] == ' '
    requires |y| == 0 || y[0] != ' '
    ensures Squeeze(b + y) == " " + Squeeze(y)
    decreases |b|
  {
    var s := b + y;
    if |b| == 1 {
      if |y| == 0 {
        assert s == " ";
      } else {
        assert s[0] == ' ' && s[1] == y[0];
        assert s[1..] == y;
      }
    } else {
      assert s[0] == ' ' && s[1] == ' ';
      assert s[1..] == b[1..] + y;
      SqueezeSpaceRun(b[1..], y);
    }
  }

  /** `re.sub('[ ]+', ' ', ...)` on one maximal run of spaces between two texts. */
  lemma SqueezeRun(x: string, b: string, y: string)
    requires |x| == 0 || x[|x| - 1] != ' '
    requires |b| > 0 && forall k | 0 <= k < |b| :: b[k] == ' '
    requires |y| == 0 || y[0] != ' '
    ensures Squeeze(x + b + y) == Squeeze(x) + " " + Squeeze(y)
  {
    SqueezeSpaceRun(b, y);
    SqueezeAfter(x, b + y, " " + Squeeze(y));
    Assoc(x, b, y);
  }

  lemma Assoc(x: string, y: string, z: string)
    ensures (x + y) + z == x + (y + z)
  {
  }

  lemma SqueezeAfter(x: string, t: string, u: string)
    requires |x| == 0 || x[|x| - 1] != ' '
    requires Squeeze(t) == u && |u| > 0
    ensures Squeeze(x + t) == Squeeze(x) + [u[0]] + u[1..]
  {
    SqueezeConcat(x, t);
    assert u == [u[0]] + u[1..];
  }

  lemma {:induction false} SqueezeNoDoubleSpace(s: string)
    ensures !Occurs(Squeeze(s), "  ")
    decreases |s|
  {
    if |s| < 2 {
    } else if s[0] == ' ' && s[1] == ' ' {
      SqueezeNoDoubleSpace(s[1..]);
    } else {
      SqueezeNoDoubleSpace(s[1..]);
      PairFreeConcat([s[0]], Squeeze(s[1..]), ' ', ' ');
    }
  }

  lemma {:induction false} SqueezeKeepsChars(s: string, c: char)
    requires c in Squeeze(s)
    ensures c in s
    decreases |s|
  {
    if |s| >= 2 {
      if c != s[0] { SqueezeKeepsChars(s[1..], c); }
    }
  }

  /** Squeezing drops only spaces: whatever ignores spaces sees no change. */
  lemma {:induction false} SqueezeFilter(s: string, keep: char -> bool)
    requires !keep(' ')
    ensures Filter(Squeeze(s), keep) == Filter(s, keep)
    decreases |s|
  {
    if |s| < 2 {
    } else if s[0] == ' ' && s[1] == ' ' {
      SqueezeFilter(s[1..], keep);
    } else {
      SqueezeFilter(s[1..], keep);
      FilterConcat([s[0]], Squeeze(s[1..]), keep);
    }
  }

  lemma {:induction false} SqueezeFixedPoint(s: string)
    requires !Occurs(s, "  ")
    ensures Squeeze(s) == s
    decreases |s|
  {
    if |s| >= 2 {
      assert s[..2] != "  ";
      SqueezeFixedPoint(s[1..]);
    }
  }

  lemma {:induction false} NewlinesToSpacesFilter(s: string, keep: char -> bool)
    requires !keep(' ') && !keep('\n')
    ensures Filter(NewlinesToSpaces(s), keep) == Filter(s, keep)
    decreases |s|
  {
    if |s| > 0 {
      assert NewlinesToSpaces(s)[1..] == NewlinesToSpaces(s[1..]);
      NewlinesToSpacesFilter(s[1..], keep);
    }
  }

  lemma NewlinesToSpacesConcat(x: string, y: string)
    ensures NewlinesToSpaces(x + y) == NewlinesToSpaces(x) + NewlinesToSpaces(y)
  {
  }

  lemma NoNewlineAfterNewlinesToSpaces(s: string)
    ensures '\n' !in NewlinesToSpaces(s)
  {
    var t := NewlinesToSpaces(s);
    assert forall i | 0 <= i < |t| :: t[i] != '\n';
  }

  lemma {:induction false} FilterNothingKept(s: string, keep: char -> bool)
    requires forall k | 0 <= k < |s| :: !keep(s[k])
    ensures Filter(s, keep) == ""
    decreases |s|
  {
    if |s| > 0 { FilterNothingKept(s[1..], keep); }
  }

  /** Filtering ignores a whitespace head `s[..i]` and tail `s[j..]`. */
  lemma FilterOfInfix(s: string, i: nat, j: nat, keep: char -> bool)
    requires i <= j <= |s|
    requires forall c :: IsPyWhitespace(c) ==> !keep(c)
    requires forall k | 0 <= k < i :: IsPyWhitespace(s[k])
    requires forall k | j <= k < |s| :: IsPyWhitespace(s[k])
    ensures Filter(s[i..j], keep) == Filter(s, keep)
  {
    FilterDropHead(s, i, keep);
    FilterDropTail(s, i, j, keep);
  }

  lemma FilterDropHead(s: string, i: nat, keep: char -> bool)
    requires i <= |s|
    requires forall c :: IsPyWhitespace(c) ==> !keep(c)
    requires forall k | 0 <= k < i :: IsPyWhitespace(s[k])
    ensures Filter(s[i..], keep) == Filter(s, keep)
  {
    var head, rest := s[..i], s[i..];
    assert head + rest == s;
    WhitespaceNotKept(head, keep);
    FilterConcat(head, rest, keep);
  }

  lemma FilterDropTail(s: string, i: nat, j: nat, keep: char -> bool)
    requires i <= j <= |s|
    requires forall c :: IsPyWhitespace(c) ==> !keep(c)
    requires forall k | j <= k < |s| :: IsPyWhitespace(s[k])
    ensures Filter(s[i..j], keep) == Filter(s[i..], keep)
  {
    var mid, tail := s[i..j], s[j..];
    assert mid + tail == s[i..];
    assert forall k | 0 <= k < |tail| :: IsPyWhitespace(tail[k]) by {
      forall k | 0 <= k < |tail| ensures IsPyWhitespace(tail[k]) { assert tail[k] == s[j + k]; }
    }
    WhitespaceNotKept(tail, keep);
    FilterConcat(mid, tail, keep);
  }

  lemma WhitespaceNotKept(s: string, keep: char -> bool)
    requires forall c :: IsPyWhitespace(c) ==> !keep(c)
    requires forall k | 0 <= k < |s| :: IsPyWhitespace(s[k])
    ensures Filter(s, keep) == ""
  {
    FilterNothingKept(s, keep);
  }

  lemma NewlinesToSpacesWithoutNewline(s: string)
    requires '\n' !in s
    ensures NewlinesToSpaces(s) == s
  {
  }

  /** The length of the longest prefix of `s` whose characters all satisfy `p`: what a greedy `[...]*` consumes. */
  function Run(s: string, p: char -> bool): (n: nat)
    ensures n <= |s|
    ensures forall k | 0 <= k < n :: p(s[k])
    ensures n < |s| ==> !p(s[n])
    decreases |s|
  {
    if |s| > 0 && p(s[0]) then 1 + Run(s[1..], p) else 0
  }

  /** The same from the right end. */
  function RunBack(s: string, p: char -> bool): (n: nat)
    ensures n <= |s|
    ensures forall k | |s| - n <= k < |s| :: p(s[k])
    ensures n < |s| ==> !p(s[|s| - n - 1])
    decreases |s|
  {
    if |s| > 0 && p(s[|s| - 1]) then 1 + RunBack(s[..|s| - 1], p) else 0
  }

  lemma RunOfConcat(x: string, y: string, p: char -> bool)
    requires forall k | 0 <= k < |x| :: p(x[k])
    requires |y| == 0 || !p(y[0])
    ensures Run(x + y, p) == |x|
  {
    assert forall k | 0 <= k < |x| :: (x + y)[k] == x[k];
    assert |y| > 0 ==> (x + y)[|x|] == y[0];
  }

  /** Python's `s.strip()`. */
  function Strip(s: string): (r: string)
    ensures |r| > 0 ==> !IsPyWhitespace(r[0]) && !IsPyWhitespace(r[|r| - 1])
    ensures exists i, j :: (0 <= i <= j <= |s| && r == s[i..j]
                             && (forall k | 0 <= k < i :: IsPyWhitespace(s[k]))
                             && (forall k | j <= k < |s| :: IsPyWhitespace(s[k])))
  {
    var i := Run(s, IsPyWhitespace);
    var j := |s| - RunBack(s[i..], IsPyWhitespace);
    assert s[i..][..j - i] == s[i..j];
    s[i..j]
  }

  lemma StripInfix(s: string) returns (i: nat, j: nat)
    ensures i <= j <= |s| && Strip(s) == s[i..j]
    ensures forall k | 0 <= k < i :: IsPyWhitespace(s[k])
    ensures forall k | j <= k < |s| :: IsPyWhitespace(s[k])
  {
    i, j :| 0 <= i <= j <= |s| && Strip(s) == s[i..j]
      && (forall k | 0 <= k < i :: IsPyWhitespace(s[k]))
      && (forall k | j <= k < |s| :: IsPyWhitespace(s[k]));
  }

  /** Text that neither starts nor ends with whitespace is left as is. */
  lemma StripOfTrimmed(s: string)
    requires |s| == 0 || (!IsPyWhitespace(s[0]) && !IsPyWhitespace(s[|s| - 1]))
    ensures Strip(s) == s
  {
    var i, j := StripInfix(s);
    if |s| > 0 {
      assert i == 0 && j == |s|;
    }
  }

  lemma StripKeepsChars(s: string, c: char)
    requires c in Strip(s)
    ensures c in s
  {
    var i, j := StripInfix(s);
    var k :| 0 <= k < j - i && s[i..j][k] == c;
    assert s[i + k] == c;
  }

  lemma StripPairFree(s: string, a: char, b: char)
    requires !Occurs(s, [a, b])
    ensures !Occurs(Strip(s), [a, b])
  {
    var i, j := StripInfix(s);
    if Occurs(s[i..j], [a, b]) {
      assert s[i..j] == s[i..][..j - i];
      OccursInPrefix(s[i..], j - i, [a, b]);
      OccursInSuffix(s, i, [a, b]);
    }
  }

  /** Stripping drops only whitespace. */
  lemma StripFilter(s: string, keep: char -> bool)
    requires forall c :: IsPyWhitespace(c) ==> !keep(c)
    ensures Filter(Strip(s), keep) == Filter(s, keep)
  {
    var i, j := StripInfix(s);
    FilterOfInfix(s, i, j, keep);
  }

  /** Python's `s.lower()` on ASCII letters. */
  function Lower(s: string): (r: string)
    ensures |r| == |s|
    ensures forall i | 0 <= i < |s| :: !IsAsciiUpper(r[i])
    ensures forall i | 0 <= i < |s| :: !IsAsciiUpper(s[i]) ==> r[i] == s[i]
    ensures forall i | 0 <= i < |s| :: IsAsciiUpper(s[i]) ==>
      'a' <= r[i] <= 'z' && r[i] as int - 'a' as int == s[i] as int - 'A' as int
  {
    seq(|s|, i requires 0 <= i < |s| => if IsAsciiUpper(s[i]) then (s[i] as int + 32) as char else s[i])
  }

  lemma LowerIdempotent(s: string)
    ensures Lower(Lower(s)) == Lower(s)
  {
  }

  /** Python's `sep.join(xs)`. */
  function Join(xs: seq<string>, sep: string): string
    decreases |xs|
  {
    if |xs| == 0 then "" else if |xs| == 1 then xs[0] else xs[0] + sep + Join(xs[1..], sep)
  }

  /** The text a loop builds by appending `x + sep` for every `x`. */
  function Terminated(xs: seq<string>, sep: string): (r: string)
    decreases |xs|
  {
    if |xs| == 0 then "" else xs[0] + sep + Terminated(xs[1..], sep)
  }

  lemma {:induction false} TerminatedSnoc(xs: seq<string>, x: string, sep: string)
    ensures Terminated(xs + [x], sep) == Terminated(xs, sep) + x + sep
    decreases |xs|
  {
    if |xs| > 0 {
      assert (xs + [x])[1..] == xs[1..] + [x];
      TerminatedSnoc(xs[1..], x, sep);
    } else {
      assert Terminated([x], sep) == x + sep + Terminated([], sep);
    }
  }

  /** Dropping the final separator of a terminated list gives the joined list. */
  lemma {:induction false} TerminatedIsJoinPlusSep(xs: seq<string>, sep: string)
    requires |xs| > 0
    ensures Terminated(xs, sep) == Join(xs, sep) + sep
    decreases |xs|
  {
    if |xs| > 1 {
      TerminatedIsJoinPlusSep(xs[1..], sep);
    }
  }

  predicate StartsWith(s: string, p: string) {
    |p| <= |s| && s[..|p|] == p
  }

  predicate EndsWith(s: string, p: string) {
    |p| <= |s| && s[|s| - |p|..] == p
  }

  /** Python's `s.rstrip(c)` for one character `c`. */
  function RStripChar(s: string, c: char): (r: string)
    ensures |r| <= |s| && r == s[..|r|]
    ensures |r| == 0 || r[|r| - 1] != c
    ensures forall k | |r| <= k < |s| :: s[k] == c
    decreases |s|
  {
    if |s| > 0 && s[|s| - 1] == c then RStripChar(s[..|s| - 1], c) else s
  }

  /** Python's `s[:-2]`. */
  function DropLastTwo(s: string): (r: string)
    ensures |s| >= 2 ==> r == s[..|s| - 2]
    ensures |s| < 2 ==> r == ""
  {
    if |s| >= 2 then s[..|s| - 2] else ""
  }
}
