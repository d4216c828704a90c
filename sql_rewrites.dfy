/**
 * The text rewrites that both variants of the SQL normaliser share: the
 * whitespace collapse, the operator-spacing fix and the strftime code fix-up.
 */
module SqlRewrites {
  import opened Text

  /**
   * `re.sub('[ ]+', ' ', q.replace('\n', ' ')).strip()`: newlines become spaces,
   * space runs become one space and the ends are trimmed. Only whitespace changes.
   */
  function CollapseWhitespace(q: string): (r: string)
    ensures '\n' !in r
    ensures !Occurs(r, "  ")
    ensures |r| > 0 ==> !IsPyWhitespace(r[0]) && !IsPyWhitespace(r[|r| - 1])
    ensures Filter(r, IsNotWhitespace) == Filter(q, IsNotWhitespace)
    ensures |r| <= |q|
  {
    var n := NewlinesToSpaces(q);
    var t := Squeeze(n);
    NoNewlineAfterNewlinesToSpaces(q);
    assert '\n' !in Strip(t) by {
      if '\n' in Strip(t) {
        StripKeepsChars(t, '\n');
        SqueezeKeepsChars(n, '\n');
      }
    }
    SqueezeNoDoubleSpace(n);
    StripPairFree(t, ' ', ' ');
    NewlinesToSpacesFilter(q, IsNotWhitespace);
    SqueezeFilter(n, IsNotWhitespace);
    StripFilter(t, IsNotWhitespace);
    Strip(t)
  }

  /** Text the collapse leaves as it is: no newline, no doubled space, no whitespace at either end. */
  predicate Collapsed(q: string) {
    && '\n' !in q
    && !Occurs(q, "  ")
    && (|q| == 0 || (!IsPyWhitespace(q[0]) && !IsPyWhitespace(q[|q| - 1])))
  }

  /** Collapsing already collapsed text changes nothing. */
  lemma CollapseWhitespaceOfCollapsed(q: string)
    requires Collapsed(q)
    ensures CollapseWhitespace(q) == q
  {
    NewlinesToSpacesWithoutNewline(q);
    SqueezeFixedPoint(q);
    StripOfTrimmed(q);
  }

  /**
   * A gap of spaces and newlines between two collapsed texts becomes exactly
   * one space.
   */
  lemma CollapseWhitespaceOfSeparated(x: string, b: string, y: string)
    requires Collapsed(x) && Collapsed(y) && |x| > 0 && |y| > 0
    requires |b| > 0 && forall k | 0 <= k < |b| :: b[k] == ' ' || b[k] == '\n'
    ensures CollapseWhitespace(x + b + y) == x + " " + y
  {
    var n := NewlinesToSpaces(b);
    NewlinesToSpacesConcat(x + b, y);
    NewlinesToSpacesConcat(x, b);
    NewlinesToSpacesWithoutNewline(x);
    NewlinesToSpacesWithoutNewline(y);
    assert NewlinesToSpaces(x + b + y) == x + n + y;
    SqueezeRun(x, n, y);
    SqueezeFixedPoint(x);
    SqueezeFixedPoint(y);
    var s := x + " " + y;
    assert s[0] == x[0] && s[|s| - 1] == y[|y| - 1];
    StripOfTrimmed(s);
  }

  /** The operator characters the spacing fix looks for. */
  predicate OperatorFree(s: string) {
    '>' !in s && '<' !in s && '!' !in s
  }

  /** A spaced `>`, `<` or `!` comparison between operator-free texts loses exactly its space. */
  lemma FixOperatorSpacingJoins(x: string, o: char, y: string)
    requires o == '>' || o == '<' || o == '!'
    requires OperatorFree(x) && OperatorFree(y)
    ensures FixOperatorSpacing(x + [o, ' ', '='] + y) == x + [o, '='] + y
  {
    var spaced, joined := [o, ' ', '='], [o, '='];
    ReplaceAllWithoutFirstChar(y, spaced, joined);
    ReplaceAllOnce(x, spaced, y, joined);
    var s, t := x + spaced + y, x + joined + y;
    if o == '>' {
      ReplaceAllWithoutFirstChar(t, "< =", "<=");
      ReplaceAllWithoutFirstChar(t, "! =", "!=");
    } else if o == '<' {
      ReplaceAllWithoutFirstChar(s, "> =", ">=");
      ReplaceAllWithoutFirstChar(t, "! =", "!=");
    } else {
      ReplaceAllWithoutFirstChar(s, "> =", ">=");
      ReplaceAllWithoutFirstChar(s, "< =", "<=");
    }
  }

  lemma CollapseWhitespaceIdempotent(q: string)
    ensures CollapseWhitespace(CollapseWhitespace(q)) == CollapseWhitespace(q)
  {
    CollapseWhitespaceOfCollapsed(CollapseWhitespace(q));
  }

  /**
   * `q.replace('> =', '>=').replace('< =', '<=').replace('! =', '!=')`: only the
   * space inside a spaced comparison operator is dropped.
   */
  function FixOperatorSpacing(q: string): (r: string)
    ensures Filter(r, IsNotSpace) == Filter(q, IsNotSpace)
    ensures |r| <= |q|
    ensures !Occurs(r, "> =") && !Occurs(r, "< =") && !Occurs(r, "! =")
    ensures !Occurs(q, "> =") && !Occurs(q, "< =") && !Occurs(q, "! =") ==> r == q
  {
    var a := ReplaceAll(q, "> =", ">=");
    var b := ReplaceAll(a, "< =", "<=");
    ReplaceAllDropsMiddle(q, '>', ' ', '=', '>');
    ReplaceAllDropsMiddle(a, '<', ' ', '=', '>');
    ReplaceAllDropsMiddle(a, '<', ' ', '=', '<');
    ReplaceAllDropsMiddle(b, '!', ' ', '=', '>');
    ReplaceAllDropsMiddle(b, '!', ' ', '=', '<');
    ReplaceAllDropsMiddle(b, '!', ' ', '=', '!');
    ReplaceAllFilter(q, "> =", ">=", IsNotSpace);
    ReplaceAllFilter(a, "< =", "<=", IsNotSpace);
    ReplaceAllFilter(b, "! =", "!=", IsNotSpace);
    ReplaceAll(b, "! =", "!=")
  }

  /**
   * `q.replace('%y', '%Y').replace('%j', '%J')`: the two strftime codes SQLite
   * does not know are upper-cased; nothing else moves.
   */
  function FixStrftime(q: string): (r: string)
    ensures !Occurs(r, "%y") && !Occurs(r, "%j")
    ensures |r| == |q|
    ensures forall k | 0 <= k < |q| :: r[k] == FixedCodeAt(q, k)
    ensures !Occurs(q, "%y") && !Occurs(q, "%j") ==> r == q
  {
    var a := ReplaceAll(q, "%y", "%Y");
    FixStrftimePointwise(q);
    PairFreeByIndex("%Y", '%', 'y');
    PairFreeByIndex("%J", '%', 'y');
    PairFreeByIndex("%J", '%', 'j');
    ReplaceAllPairFree(q, "%y", "%Y", '%', 'y');
    ReplaceAllPairFree(a, "%j", "%J", '%', 'y');
    assert !Occurs(q, "%j") ==> !Occurs(a, "%j") by {
      if !Occurs(q, "%j") {
        PairFreeByIndex("%Y", '%', 'j');
        ReplaceAllPairFree(q, "%y", "%Y", '%', 'j');
      }
    }
    ReplaceAllPairFree(a, "%j", "%J", '%', 'j');
    ReplaceAll(a, "%j", "%J")
  }

  /** Position by position: a `y` or `j` right after a `%` is upper-cased, anything else is kept. */
  function FixedCodeAt(q: string, k: nat): char
    requires k < |q|
  {
    if 0 < k && q[k - 1] == '%' && q[k] == 'y' then 'Y'
    else if 0 < k && q[k - 1] == '%' && q[k] == 'j' then 'J'
    else q[k]
  }

  lemma FixStrftimePointwise(q: string)
    ensures var r := ReplaceAll(ReplaceAll(q, "%y", "%Y"), "%j", "%J");
      |r| == |q| && forall k | 0 <= k < |q| :: r[k] == FixedCodeAt(q, k)
  {
    var a := ReplaceAll(q, "%y", "%Y");
    var r := ReplaceAll(a, "%j", "%J");
    ReplacePairPointwise(q, '%', 'y', 'Y');
    ReplacePairPointwise(a, '%', 'j', 'J');
    forall k | 0 <= k < |q|
      ensures r[k] == FixedCodeAt(q, k)
    {
      if 0 < k {
        var j := k - 1;
        assert a[j] == (if 0 < j && q[j - 1] == '%' && q[j] == 'y' then 'Y' else q[j]);
      }
      CodeStep(q[k], a[k], if 0 < k then q[k - 1] else ' ', if 0 < k then a[k - 1] else ' ', 0 < k, r[k]);
    }
  }

  /** One position of the two passes, with the previous characters before and after the first pass. */
  lemma CodeStep(c: char, c1: char, prev: char, prev1: char, hasPrev: bool, c2: char)
    requires c1 == (if hasPrev && prev == '%' && c == 'y' then 'Y' else c)
    requires !hasPrev || prev1 == prev || (prev == 'y' && prev1 == 'Y')
    requires c2 == (if hasPrev && prev1 == '%' && c1 == 'j' then 'J' else c1)
    ensures c2 == (if hasPrev && prev == '%' && c == 'y' then 'Y'
                   else if hasPrev && prev == '%' && c == 'j' then 'J' else c)
  {
  }

  lemma FixStrftimeIdempotent(q: string)
    ensures FixStrftime(FixStrftime(q)) == FixStrftime(q)
  {
  }
}
