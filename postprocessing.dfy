/**
 * The SQL normaliser of the scoring program: a fixed pipeline of text rewrites
 * that brings a generated or gold query into the form that SQLite runs on the
 * frozen database.
 */
module PostProcessing {
  import opened Wrappers
  import opened Text
  import SqlRewrites
  import VitalBounds

  /** The instant at which the database is frozen. */
  const CurrentDate := "2100-12-31"
  const CurrentTime := "23:59:00"
  const Now := CurrentDate + " " + CurrentTime

  // ---------------------------------------------------------------------------
  // TIME_PATTERN:
  //   (DATE_SUB|DATE_ADD)\((\w+\(\)|'[^']+')[, ]+ INTERVAL (\d+) (MONTH|YEAR|DAY)\)
  // ---------------------------------------------------------------------------

  /**
   * One match of TIME_PATTERN, by its groups. `separator` is the `[, ]+` text
   * without the space that begins ` INTERVAL`.
   */
  datatype IntervalCall = IntervalCall(op: string, date: string, separator: string, number: string, unit: string)

  function CallText(c: IntervalCall): string {
    c.op + "(" + c.date + c.separator + " INTERVAL " + c.number + " " + c.unit + ")"
  }

  predicate IsSeparatorChar(c: char) { c == ',' || c == ' ' }

  predicate IsNotQuote(c: char) { c != '\'' }

  predicate All(s: string, p: char -> bool) {
    forall k | 0 <= k < |s| :: p(s[k])
  }

  /** `\w+\(\)` or `'[^']+'`. */
  predicate WellFormedDate(d: string) {
    (|d| >= 3 && d[|d| - 2..] == "()" && All(d[..|d| - 2], IsWordChar))
    || (|d| >= 3 && d[0] == '\'' && d[|d| - 1] == '\'' && All(d[1..|d| - 1], IsNotQuote))
  }

  predicate WellFormed(c: IntervalCall) {
    && (c.op == "DATE_SUB" || c.op == "DATE_ADD")
    && WellFormedDate(c.date)
    && |c.separator| > 0 && All(c.separator, IsSeparatorChar)
    && |c.number| > 0 && All(c.number, IsDigit)
    && (c.unit == "MONTH" || c.unit == "YEAR" || c.unit == "DAY")
  }

  // Each stage of the match takes the text where its group begins and returns
  // the group with the text that follows it.

  /** `(DATE_SUB|DATE_ADD)\(`: the operator and what follows the parenthesis. */
  function MatchOp(s: string): (r: Option<(string, string)>)
    ensures r.Some? ==> (r.value.0 == "DATE_SUB" || r.value.0 == "DATE_ADD")
    ensures r.Some? ==> s == r.value.0 + "(" + r.value.1
  {
    if StartsWith(s, "DATE_SUB(") then
      assert s == s[..9] + s[9..];
      Some(("DATE_SUB", s[9..]))
    else if StartsWith(s, "DATE_ADD(") then
      assert s == s[..9] + s[9..];
      Some(("DATE_ADD", s[9..]))
    else None
  }

  /**
   * The date group. Each alternative is deterministic: a shorter `\w+` would
   * be followed by a word character instead of `(`, a shorter `[^']+` by a
   * non-quote instead of `'`; and the two start with different characters,
   * so at most one applies.
   */
  function MatchDate(t: string): (r: Option<(string, string)>)
    ensures r.Some? ==> WellFormedDate(r.value.0) && t == r.value.0 + r.value.1
  {
    if |t| > 0 && IsWordChar(t[0]) then MatchCallDate(t)
    else if |t| > 0 && t[0] == '\'' then MatchQuotedDate(t)
    else None
  }

  /** `\w+\(\)` */
  function MatchCallDate(t: string): (r: Option<(string, string)>)
    requires |t| > 0 && IsWordChar(t[0])
    ensures r.Some? ==> WellFormedDate(r.value.0) && t == r.value.0 + r.value.1
  {
    var w := Run(t, IsWordChar);
    if StartsWith(t[w..], "()") then
      var d := t[..w + 2];
      assert d[..w] == t[..w];
      assert d[w..] == t[w..][..2];
      assert t == d + t[w + 2..];
      Some((d, t[w + 2..]))
    else None
  }

  /** `'[^']+'` */
  function MatchQuotedDate(t: string): (r: Option<(string, string)>)
    requires |t| > 0 && t[0] == '\''
    ensures r.Some? ==> WellFormedDate(r.value.0) && t == r.value.0 + r.value.1
  {
    var n := Run(t[1..], IsNotQuote);
    if 0 < n && 1 + n < |t| then
      var d := t[..n + 2];
      assert d[1..n + 1] == t[1..][..n];
      assert t == d + t[n + 2..];
      Some((d, t[n + 2..]))
    else None
  }

  /**
   * `[, ]+ INTERVAL `: the separator group. The greedy run of separators
   * must give back its last character, a space, and `INTERVAL ` must follow;
   * giving back more cannot help, since `I` would then have to be a separator.
   */
  function MatchSeparator(t: string): (r: Option<(string, string)>)
    ensures r.Some? ==> |r.value.0| > 0 && All(r.value.0, IsSeparatorChar)
    ensures r.Some? ==> t == r.value.0 + " INTERVAL " + r.value.1
  {
    var m := Run(t, IsSeparatorChar);
    if m >= 2 && t[m - 1] == ' ' && StartsWith(t[m..], "INTERVAL ") then
      assert t[m - 1..m + 9] == " INTERVAL " by {
        assert t[m - 1..m + 9] == [t[m - 1]] + t[m..][..9];
      }
      SplitAround(t, m - 1, " INTERVAL ");
      Some((t[..m - 1], t[m + 9..]))
    else None
  }

  /** A string is what comes before `w`, `w`, and what comes after. */
  lemma SplitAround(t: string, k: nat, w: string)
    requires k + |w| <= |t| && t[k..k + |w|] == w
    ensures t == t[..k] + w + t[k + |w|..]
  {
    assert t == t[..k] + t[k..k + |w|] + t[k + |w|..];
  }

  /** `(\d+) `: the number group. */
  function MatchNumber(t: string): (r: Option<(string, string)>)
    ensures r.Some? ==> |r.value.0| > 0 && All(r.value.0, IsDigit)
    ensures r.Some? ==> t == r.value.0 + " " + r.value.1
  {
    var n := Run(t, IsDigit);
    if n == 0 || n == |t| || t[n] != ' ' then None
    else
      assert t == t[..n] + [t[n]] + t[n + 1..];
      Some((t[..n], t[n + 1..]))
  }

  /** `(MONTH|YEAR|DAY)\)`: the unit group. */
  function MatchUnit(t: string): (r: Option<(string, string)>)
    ensures r.Some? ==> (r.value.0 == "MONTH" || r.value.0 == "YEAR" || r.value.0 == "DAY")
    ensures r.Some? ==> t == r.value.0 + ")" + r.value.1
  {
    if StartsWith(t, "MONTH)") then
      assert t == t[..6] + t[6..];
      Some(("MONTH", t[6..]))
    else if StartsWith(t, "YEAR)") then
      assert t == t[..5] + t[5..];
      Some(("YEAR", t[5..]))
    else if StartsWith(t, "DAY)") then
      assert t == t[..4] + t[4..];
      Some(("DAY", t[4..]))
    else None
  }

  /** TIME_PATTERN matched at the start of `s`: the call and the text after it. */
  function MatchInterval(s: string): (r: Option<(IntervalCall, string)>)
    ensures r.Some? ==> WellFormed(r.value.0) && s == CallText(r.value.0) + r.value.1
    ensures r.Some? ==> MatchOp(s).Some?
  {
    match MatchOp(s)
    case None => None
    case Some((op, t1)) =>
      match MatchDate(t1)
      case None => None
      case Some((date, t2)) =>
        match MatchSeparator(t2)
        case None => None
        case Some((separator, t3)) =>
          match MatchNumber(t3)
          case None => None
          case Some((number, t4)) =>
            match MatchUnit(t4)
            case None => None
            case Some((unit, rest)) =>
              var c := IntervalCall(op, date, separator, number, unit);
              CallTextAssoc(c, rest);
              Some((c, rest))
  }

  /** The text after the call's `(`, followed by `rest`. */
  function ArgumentsText(c: IntervalCall, rest: string): string {
    c.date + (c.separator + " INTERVAL " + (c.number + " " + (c.unit + ")" + rest)))
  }

  lemma CallTextAssoc(c: IntervalCall, rest: string)
    ensures CallText(c) + rest == c.op + "(" + ArgumentsText(c, rest)
  {
    var u := c.unit + ")";
    var t4 := u + rest;
    var t3 := c.number + " " + t4;
    var t2 := c.separator + " INTERVAL " + t3;
    calc {
      CallText(c) + rest;
      (c.op + "(" + c.date + c.separator + " INTERVAL " + c.number + " " + u) + rest;
      { Assoc(c.op + "(" + c.date + c.separator + " INTERVAL " + c.number + " ", u, rest); }
      (c.op + "(" + c.date + c.separator + " INTERVAL " + c.number + " ") + t4;
      { Assoc(c.op + "(" + c.date + c.separator + " INTERVAL " + c.number, " ", t4);
        Assoc(c.number, " ", t4); }
      (c.op + "(" + c.date + c.separator + " INTERVAL ") + t3;
      { Assoc(c.op + "(" + c.date + c.separator, " INTERVAL ", t3);
        Assoc(c.op + "(" + c.date, c.separator, " INTERVAL " + t3);
        Assoc(c.separator, " INTERVAL ", t3); }
      (c.op + "(" + c.date) + t2;
      { Assoc(c.op + "(", c.date, t2); }
      c.op + "(" + ArgumentsText(c, rest);
    }
  }

  /** Every well-formed call is matched, whatever follows it. */
  lemma MatchIntervalComplete(c: IntervalCall, rest: string)
    requires WellFormed(c)
    ensures MatchInterval(CallText(c) + rest) == Some((c, rest))
  {
    var t4 := c.unit + ")" + rest;
    var t3 := c.number + " " + t4;
    var t2 := c.separator + " INTERVAL " + t3;
    var t1 := c.date + t2;
    CallTextAssoc(c, rest);
    MatchOpOf(c.op, t1);
    MatchDateOf(c.date, t2);
    MatchSeparatorOf(c.separator, t3);
    MatchNumberOf(c.number, t4);
    MatchUnitOf(c.unit, rest);
  }

  lemma MatchOpOf(op: string, u: string)
    requires op == "DATE_SUB" || op == "DATE_ADD"
    ensures MatchOp(op + "(" + u) == Some((op, u))
  {
    var s := op + "(" + u;
    assert s[..9] == op + "(" && s[9..] == u;
    if op == "DATE_ADD" { assert s[..9][5] != "DATE_SUB("[5]; }
  }

  lemma MatchDateOf(date: string, u: string)
    requires WellFormedDate(date)
    requires |u| > 0 && IsSeparatorChar(u[0])
    ensures MatchDate(date + u) == Some((date, u))
  {
    var t := date + u;
    if |date| >= 3 && date[|date| - 2..] == "()" && All(date[..|date| - 2], IsWordChar) {
      var w := date[..|date| - 2];
      assert t == w + ("()" + u);
      RunOfConcat(w, "()" + u, IsWordChar);
      assert t[|w|..] == "()" + u;
      assert t[..|date|] == date && t[|date|..] == u;
    } else {
      var body := date[1..|date| - 1];
      assert t[1..] == body + ("'" + u);
      RunOfConcat(body, "'" + u, IsNotQuote);
      assert t[..|date|] == date && t[|date|..] == u;
    }
  }

  lemma MatchSeparatorOf(sep: string, u: string)
    requires |sep| > 0 && All(sep, IsSeparatorChar)
    ensures MatchSeparator(sep + " INTERVAL " + u) == Some((sep, u))
  {
    var t := sep + " INTERVAL " + u;
    assert t == (sep + " ") + ("INTERVAL " + u);
    RunOfConcat(sep + " ", "INTERVAL " + u, IsSeparatorChar);
    assert t[|sep| + 1..] == "INTERVAL " + u;
    assert t[..|sep|] == sep && t[|sep| + 10..] == u;
  }

  lemma MatchNumberOf(number: string, u: string)
    requires |number| > 0 && All(number, IsDigit)
    ensures MatchNumber(number + " " + u) == Some((number, u))
  {
    var t := number + " " + u;
    assert t == number + (" " + u);
    RunOfConcat(number, " " + u, IsDigit);
    assert t[..|number|] == number && t[|number| + 1..] == u;
  }

  lemma MatchUnitOf(unit: string, u: string)
    requires unit == "MONTH" || unit == "YEAR" || unit == "DAY"
    ensures MatchUnit(unit + ")" + u) == Some((unit, u))
  {
    var t := unit + ")" + u;
    assert t[..|unit| + 1] == unit + ")" && t[|unit| + 1..] == u;
    assert t[0] == unit[0];
  }

  /**
   * A call whose first argument is a bare column (an identifier not followed by
   * `()`) does not match: the interval rewrite leaves it alone.
   */
  lemma BareColumnNotMatched(op: string, column: string, rest: string)
    requires op == "DATE_SUB" || op == "DATE_ADD"
    requires |column| > 0 && All(column, IsWordChar)
    requires |rest| == 0 || (rest[0] != '(' && !IsWordChar(rest[0]))
    ensures MatchInterval(op + "(" + column + rest) == None
  {
    assert op + "(" + column + rest == op + "(" + (column + rest);
    MatchOpOf(op, column + rest);
    RunOfConcat(column, rest, IsWordChar);
    assert (column + rest)[|column|..] == rest;
    assert MatchDate(column + rest) == None;
    MatchIntervalNeedsDate(op + "(" + column + rest);
  }

  lemma MatchIntervalNeedsDate(s: string)
    requires MatchOp(s).Some? && MatchDate(MatchOp(s).value.1).None?
    ensures MatchInterval(s) == None
  {
  }

  // ---------------------------------------------------------------------------
  // convert_date_function and the re.sub that applies it
  // ---------------------------------------------------------------------------

  /**
   * `convert_date_function`: the SQLite call `datetime(<date>, '<sign><n> <unit>')`
   * for a matched call. The unit is lower-cased, stripped of trailing `s` when
   * the number is the string `1`, and otherwise given an `s` unless it ends in one.
   */
  function ConvertDateFunction(c: IntervalCall): (r: string)
    ensures StartsWith(r, "datetime(" + c.date + ", '")
    ensures EndsWith(r, "')")
  {
    var lower := Lower(c.unit);
    var unit := if c.number == "1" then RStripChar(lower, 's') else lower + (if EndsWith(lower, "s") then "" else "s");
    var sign := if c.op == "DATE_SUB" then "-" else "+";
    var prefix := "datetime(" + c.date + ", '";
    var r := prefix + (sign + c.number + " " + unit + "')");
    assert r[..|prefix|] == prefix;
    r
  }

  /** The unit names in lower case; none ends in `s`. */
  lemma LowerUnit(unit: string)
    requires unit == "MONTH" || unit == "YEAR" || unit == "DAY"
    ensures Lower(unit) == (if unit == "MONTH" then "month" else if unit == "YEAR" then "year" else "day")
    ensures |Lower(unit)| > 0 && Lower(unit)[|Lower(unit)| - 1] != 's'
  {
  }

  /**
   * The unit of the rewritten call is singular exactly when the number is the
   * string `1`, and otherwise carries exactly one added `s`; the sign is `-`
   * exactly for `DATE_SUB`.
   */
  lemma ConvertDateFunctionShape(c: IntervalCall)
    requires WellFormed(c)
    ensures ConvertDateFunction(c) ==
      "datetime(" + c.date + ", '" + (if c.op == "DATE_SUB" then "-" else "+") + c.number + " "
      + Lower(c.unit) + (if c.number == "1" then "" else "s") + "')"
  {
    LowerUnit(c.unit);
    var lower := Lower(c.unit);
    NoTrailingS(lower);
    var plural := if c.number == "1" then "" else "s";
    assert (if c.number == "1" then RStripChar(lower, 's')
            else lower + (if EndsWith(lower, "s") then "" else "s")) == lower + plural;
    Reassociate("datetime(" + c.date + ", '", if c.op == "DATE_SUB" then "-" else "+", c.number, lower, plural);
  }

  lemma Reassociate(prefix: string, sign: string, number: string, lower: string, plural: string)
    ensures prefix + (sign + number + " " + (lower + plural) + "')")
         == prefix + sign + number + " " + lower + plural + "')"
  {
  }

  lemma NoTrailingS(lower: string)
    requires |lower| > 0 && lower[|lower| - 1] != 's'
    ensures RStripChar(lower, 's') == lower && !EndsWith(lower, "s")
  {
    assert lower[|lower| - 1..] == [lower[|lower| - 1]];
  }

  /** No suffix of `s` starts with a match of TIME_PATTERN. */
  predicate NoInterval(s: string) {
    forall k | 0 <= k < |s| :: MatchInterval(s[k..]).None?
  }

  lemma NoIntervalTail(s: string)
    requires |s| > 0 && NoInterval(s)
    ensures MatchInterval(s).None? && NoInterval(s[1..])
  {
    assert s[0..] == s;
    forall k | 0 <= k < |s| - 1 ensures MatchInterval(s[1..][k..]).None? {
      assert s[1..][k..] == s[k + 1..];
    }
  }

  /**
   * `re.sub(TIME_PATTERN, convert_date_function, s)`: matches are found left
   * to right and rewritten; scanning resumes after each match.
   */
  function RewriteIntervals(s: string): (r: string)
    decreases |s|
  {
    if |s| == 0 then ""
    else
      match MatchInterval(s)
      case Some((c, rest)) => ConvertDateFunction(c) + RewriteIntervals(rest)
      case None => [s[0]] + RewriteIntervals(s[1..])
  }

  /** Text in which TIME_PATTERN matches nowhere comes back unchanged. */
  lemma {:induction false} RewriteIntervalsIdentity(s: string)
    requires NoInterval(s)
    ensures RewriteIntervals(s) == s
    decreases |s|
  {
    if |s| > 0 {
      NoIntervalTail(s);
      RewriteIntervalsIdentity(s[1..]);
    }
  }

  /** A matched call is replaced by its SQLite form and the scan goes on after it. */
  lemma RewriteIntervalsAtCall(c: IntervalCall, rest: string)
    requires WellFormed(c)
    ensures RewriteIntervals(CallText(c) + rest) == ConvertDateFunction(c) + RewriteIntervals(rest)
  {
    MatchIntervalComplete(c, rest);
  }

  /** A match begins with `DAT`. */
  lemma MatchIntervalHead(s: string)
    ensures MatchInterval(s).Some? ==> |s| > 2 && s[0] == 'D' && s[1] == 'A' && s[2] == 'T'
  {
    MatchOpHead(s);
  }

  lemma MatchOpHead(s: string)
    ensures MatchOp(s).Some? ==> |s| > 2 && s[0] == 'D' && s[1] == 'A' && s[2] == 'T'
  {
  }

  /** No `DAT` starts anywhere in `s`, so no interval call can start there. */
  predicate NoDat(s: string) {
    forall k | 0 <= k && k + 2 < |s| :: !(s[k] == 'D' && s[k + 1] == 'A' && s[k + 2] == 'T')
  }

  /**
   * A prefix at none of whose positions TIME_PATTERN matches is copied through,
   * and the scan goes on in the rest.
   */
  lemma {:induction false} RewriteIntervalsSkips(x: string, t: string)
    requires forall k | 0 <= k < |x| :: MatchInterval((x + t)[k..]).None?
    ensures RewriteIntervals(x + t) == x + RewriteIntervals(t)
    decreases |x|
  {
    if |x| > 0 {
      SkipsTail(x, t);
      RewriteIntervalsSkips(x[1..], t);
      Assoc([x[0]], x[1..], RewriteIntervals(t));
      assert x == [x[0]] + x[1..];
    } else {
      assert x + t == t;
    }
  }

  /** One step of `RewriteIntervals` past a first character where nothing matches. */
  lemma SkipsTail(x: string, t: string)
    requires |x| > 0
    requires forall k | 0 <= k < |x| :: MatchInterval((x + t)[k..]).None?
    ensures forall k | 0 <= k < |x[1..]| :: MatchInterval((x[1..] + t)[k..]).None?
    ensures RewriteIntervals(x + t) == [x[0]] + RewriteIntervals(x[1..] + t)
  {
    var s := x + t;
    assert s[1..] == x[1..] + t;
    forall k | 0 <= k < |x[1..]| ensures MatchInterval((x[1..] + t)[k..]).None? {
      assert (x[1..] + t)[k..] == s[k + 1..];
    }
    assert s[0..] == s;
    assert s[0] == x[0];
  }

  /** The bare-column form is left exactly as it was. */
  lemma BareColumnUnchanged(op: string, column: string, rest: string)
    requires op == "DATE_SUB" || op == "DATE_ADD"
    requires |column| > 0 && All(column, IsWordChar) && NoDat(column)
    requires |rest| > 0 && rest[0] != '(' && !IsWordChar(rest[0]) && NoDat(rest)
    ensures RewriteIntervals(op + "(" + column + rest) == op + "(" + column + rest
  {
    NoDatAcross(column, rest);
    var s := op + "(" + column + rest;
    forall k | 0 <= k < |s| ensures MatchInterval(s[k..]).None? {
      if k == 0 {
        BareColumnNotMatched(op, column, rest);
        assert s[0..] == s;
      } else {
        NoMatchInsideBareCall(op, column, rest, k);
      }
    }
    RewriteIntervalsIdentity(s);
  }

  /** A word ending and a text starting with a non-word character hold no `DAT` across the cut. */
  lemma NoDatAcross(column: string, rest: string)
    requires All(column, IsWordChar) && NoDat(column)
    requires |rest| > 0 && !IsWordChar(rest[0]) && NoDat(rest)
    ensures NoDat(column + rest)
  {
    var s := column + rest;
    forall k | 0 <= k && k + 2 < |s| ensures !(s[k] == 'D' && s[k + 1] == 'A' && s[k + 2] == 'T') {
      if k + 2 < |column| {
        assert s[k] == column[k] && s[k + 1] == column[k + 1] && s[k + 2] == column[k + 2];
      } else if k >= |column| {
        assert s[k] == rest[k - |column|] && s[k + 1] == rest[k + 1 - |column|] && s[k + 2] == rest[k + 2 - |column|];
      } else if k + 1 == |column| {
        assert s[k + 1] == rest[0];
        assert IsWordChar('A');
      } else {
        assert s[k + 2] == rest[0];
        assert IsWordChar('T');
      }
    }
  }

  /** No `DAT` starts after the first character of a bare-column call. */
  lemma NoMatchInsideBareCall(op: string, column: string, rest: string, k: nat)
    requires op == "DATE_SUB" || op == "DATE_ADD"
    requires NoDat(column + rest)
    requires 0 < k < |op + "(" + column + rest|
    ensures MatchInterval((op + "(" + column + rest)[k..]).None?
  {
    var s := op + "(" + column + rest;
    var head := op + "(";
    var tail := column + rest;
    MatchIntervalHead(s[k..]);
    if |s[k..]| > 2 {
      assert s[k..][0] == s[k] && s[k..][1] == s[k + 1] && s[k..][2] == s[k + 2];
    }
    assert s == head + tail;
    if k < |head| {
      assert s[k] == head[k];
      if k + 1 < |head| {
        assert s[k + 1] == head[k + 1];
        NoLaterDA(op, k);
      }
    } else if k + 2 < |s| {
      var j := k - |head|;
      assert s[k] == tail[j] && s[k + 1] == tail[j + 1] && s[k + 2] == tail[j + 2];
    }
  }

  /**
   * A call in the middle of a query, after text with no `DAT` in it, is
   * converted in place; the text before it is kept as it is.
   */
  lemma RewriteIntervalsMidCall(x: string, c: IntervalCall, rest: string)
    requires NoDat(x) && WellFormed(c)
    ensures RewriteIntervals(x + CallText(c) + rest) == x + ConvertDateFunction(c) + RewriteIntervals(rest)
  {
    var t := CallText(c) + rest;
    var s := x + t;
    assert t[0] == 'D' && t[1] == 'A' && t[2] == 'T' by {
      assert t == c.op + ("(" + c.date + c.separator + " INTERVAL " + c.number + " " + c.unit + ")" + rest);
    }
    forall k | 0 <= k < |x| ensures MatchInterval(s[k..]).None? {
      MatchIntervalHead(s[k..]);
      if |s[k..]| > 2 {
        assert s[k..][0] == s[k] && s[k..][1] == s[k + 1] && s[k..][2] == s[k + 2];
        if k + 2 < |x| {
          assert s[k] == x[k] && s[k + 1] == x[k + 1] && s[k + 2] == x[k + 2];
        } else if k + 1 < |x| {
          assert s[k + 2] == t[0];
        } else {
          assert s[k + 1] == t[0];
        }
      }
    }
    RewriteIntervalsSkips(x, t);
    RewriteIntervalsAtCall(c, rest);
    Assoc(x, CallText(c), rest);
    Assoc(x, ConvertDateFunction(c), RewriteIntervals(rest));
  }

  /** The bare-column call `DATE_ADD(admittime, INTERVAL 2 DAY)` is left as it is. */
  lemma BareColumnDayExample()
    ensures RewriteIntervals("DATE_ADD(admittime, INTERVAL 2 DAY)") == "DATE_ADD(admittime, INTERVAL 2 DAY)"
  {
    var rest := ", INTERVAL 2 DAY)";
    assert "DATE_ADD(admittime, INTERVAL 2 DAY)" == "DATE_ADD" + "(" + "admittime" + rest;
    BareColumnUnchanged("DATE_ADD", "admittime", rest);
  }

  lemma NoLaterDA(op: string, k: nat)
    requires op == "DATE_SUB" || op == "DATE_ADD"
    requires 0 < k < |op|
    ensures !((op + "(")[k] == 'D' && (op + "(")[k + 1] == 'A')
  {
  }

  // ---------------------------------------------------------------------------
  // Freezing the clock
  // ---------------------------------------------------------------------------

  function Quoted(s: string): string { "'" + s + "'" }

  /**
   * `if p in q: q = q.replace(p, rep)`. The guard changes nothing: without an
   * occurrence the replacement returns its input.
   */
  function ReplaceIfPresent(q: string, p: string, rep: string): (r: string)
    requires |p| > 0
    ensures r == ReplaceAll(q, p, rep)
  {
    if Occurs(q, p) then ReplaceAll(q, p, rep) else q
  }

  /**
   * The six clock words in the order the normaliser tests them, and the
   * instant, date or time each one is frozen to.
   */
  const ClockWords: seq<string> := ["current_time", "current_date", "'now'", "NOW()", "CURDATE()", "CURTIME()"]
  const FrozenValues: seq<string> := [Now, CurrentDate, Now, Now, CurrentDate, CurrentTime]

  /** The clock words besides `'now'`, which a later replacement can form anew. */
  const Placeholders: seq<string> := [ClockWords[0], ClockWords[1], ClockWords[3], ClockWords[4], ClockWords[5]]

  predicate NoneOccur(s: string, ps: seq<string>) {
    forall i | 0 <= i < |ps| :: !Occurs(s, ps[i])
  }

  /**
   * The characters that the clock, vital-sign and strftime rewrites put into
   * a query: digits and `-: '.%YJ`. None of them is in a placeholder.
   */
  predicate IsInsertedChar(c: char) {
    IsDigit(c) || c == '-' || c == ':' || c == ' ' || c == '\'' || c == '.' || c == '%' || c == 'Y' || c == 'J'
  }

  predicate AllInserted(s: string) {
    forall k | 0 <= k < |s| :: IsInsertedChar(s[k])
  }

  predicate NoneInserted(s: string) {
    forall k | 0 <= k < |s| :: !IsInsertedChar(s[k])
  }

  lemma DisjointOfInserted(rep: string, p: string)
    requires AllInserted(rep) && NoneInserted(p)
    ensures Disjoint(rep, p)
  {
    forall j | 0 <= j < |p| ensures p[j] !in rep {
      assert !IsInsertedChar(p[j]);
    }
  }

  /** Words made of none of the inserted characters, such as the placeholders. */
  predicate InsertFreeWords(ps: seq<string>) {
    forall i | 0 <= i < |ps| :: |ps[i]| > 0 && NoneInserted(ps[i])
  }

  lemma PlaceholdersHaveNoInserted()
    ensures InsertFreeWords(Placeholders)
  {
    forall i | 0 <= i < |Placeholders| ensures |Placeholders[i]| > 0 && NoneInserted(Placeholders[i]) {
      PlaceholderHasNoInserted(Placeholders[i]);
    }
  }

  lemma PlaceholderHasNoInserted(p: string)
    requires p in Placeholders
    ensures |p| > 0 && NoneInserted(p)
  {
  }

  lemma ClockValuesInserted()
    ensures AllInserted(Quoted(Now)) && AllInserted(Quoted(CurrentDate)) && AllInserted(Quoted(CurrentTime))
  {
  }

  /** A replacement made of inserted characters keeps absent placeholders absent. */
  lemma ReplaceKeepsPlaceholdersAbsent(s: string, pat: string, rep: string, ps: seq<string>)
    requires |pat| > 0 && |rep| > 0 && AllInserted(rep)
    requires InsertFreeWords(ps)
    requires NoneOccur(s, ps)
    ensures NoneOccur(ReplaceAll(s, pat, rep), ps)
  {
    forall i | 0 <= i < |ps| ensures !Occurs(ReplaceAll(s, pat, rep), ps[i]) {
      DisjointOfInserted(rep, ps[i]);
      ReplaceAllKeepsAbsent(s, pat, rep, ps[i]);
    }
  }

  /** A replacement made of inserted characters leaves no occurrence of a placeholder pattern. */
  lemma ReplaceRemovesPlaceholder(s: string, pat: string, rep: string)
    requires |pat| > 0 && |rep| > 0 && AllInserted(rep) && NoneInserted(pat)
    ensures !Occurs(ReplaceAll(s, pat, rep), pat)
  {
    DisjointOfInserted(rep, pat);
    ReplaceAllKeepsAbsent(s, pat, rep, pat);
  }

  /**
   * The six clock rewrites, in the order the normaliser applies them: each
   * guarded by an occurrence test, each replacing every occurrence by the
   * frozen instant, date or time in quotes.
   */
  function FreezeClock(q: string): (r: string)
    ensures NoneOccur(q, ClockWords) ==> r == q
  {
    FreezeWord(FreezeWord(FreezeWord(FreezeWord(FreezeWord(FreezeWord(q, 0), 1), 2), 3), 4), 5)
  }

  /** The `i`-th clock rewrite. */
  function FreezeWord(q: string, i: nat): (r: string)
    requires i < |ClockWords|
    ensures r == ReplaceAll(q, ClockWords[i], Quoted(FrozenValues[i]))
  {
    ReplaceIfPresent(q, ClockWords[i], Quoted(FrozenValues[i]))
  }

  /**
   * After the clock rewrites no placeholder is left. `'now'` is not among them: a later
   * replacement ending in a quote can stand right before `now'` and form it anew.
   */
  lemma FreezeClockRemovesPlaceholders(q: string)
    ensures NoneOccur(FreezeClock(q), Placeholders)
  {
    var p := Placeholders;
    ClockValuesInserted();
    PlaceholdersHaveNoInserted();
    var q1 := ReplaceAll(q, p[0], Quoted(Now));
    var q2 := ReplaceAll(q1, p[1], Quoted(CurrentDate));
    var q3 := ReplaceAll(q2, "'now'", Quoted(Now));
    assert NoneOccur(q3, p[..2]) by { FreezeFirstSteps(q, q1, q2, q3); }
    var q4 := ReplaceAll(q3, p[2], Quoted(Now));
    var q5 := ReplaceAll(q4, p[3], Quoted(CurrentDate));
    var q6 := ReplaceAll(q5, p[4], Quoted(CurrentTime));
    assert NoneOccur(q4, p[..3]) by {
      ClockStep(q3, p[2], Quoted(Now), p[..2]);
      assert p[..2] + [p[2]] == p[..3];
    }
    FreezeLastSteps(q4, q5, q6);
  }

  lemma FreezeFirstSteps(q: string, q1: string, q2: string, q3: string)
    requires AllInserted(Quoted(Now)) && AllInserted(Quoted(CurrentDate))
    requires forall i | 0 <= i < |Placeholders| :: |Placeholders[i]| > 0 && NoneInserted(Placeholders[i])
    requires q1 == ReplaceAll(q, Placeholders[0], Quoted(Now))
    requires q2 == ReplaceAll(q1, Placeholders[1], Quoted(CurrentDate))
    requires q3 == ReplaceAll(q2, "'now'", Quoted(Now))
    ensures NoneOccur(q3, Placeholders[..2])
  {
    var p := Placeholders;
    assert NoneOccur(q1, p[..1]) by { ReplaceRemovesPlaceholder(q, p[0], Quoted(Now)); }
    assert NoneOccur(q2, p[..2]) by {
      ClockStep(q1, p[1], Quoted(CurrentDate), p[..1]);
      assert p[..1] + [p[1]] == p[..2];
    }
    ReplaceKeepsPlaceholdersAbsent(q2, "'now'", Quoted(Now), p[..2]);
  }

  lemma FreezeLastSteps(q4: string, q5: string, q6: string)
    requires AllInserted(Quoted(CurrentDate)) && AllInserted(Quoted(CurrentTime))
    requires forall i | 0 <= i < |Placeholders| :: |Placeholders[i]| > 0 && NoneInserted(Placeholders[i])
    requires NoneOccur(q4, Placeholders[..3])
    requires q5 == ReplaceAll(q4, Placeholders[3], Quoted(CurrentDate))
    requires q6 == ReplaceAll(q5, Placeholders[4], Quoted(CurrentTime))
    ensures NoneOccur(q6, Placeholders)
  {
    var p := Placeholders;
    assert NoneOccur(q5, p[..4]) by {
      ClockStep(q4, p[3], Quoted(CurrentDate), p[..3]);
      assert p[..3] + [p[3]] == p[..4];
    }
    ClockStep(q5, p[4], Quoted(CurrentTime), p[..4]);
    assert p[..4] + [p[4]] == p;
  }

  lemma ClockStep(s: string, pat: string, rep: string, ps: seq<string>)
    requires |pat| > 0 && |rep| > 0 && AllInserted(rep) && NoneInserted(pat)
    requires InsertFreeWords(ps)
    requires NoneOccur(s, ps)
    ensures NoneOccur(ReplaceAll(s, pat, rep), ps + [pat])
  {
    ReplaceKeepsPlaceholdersAbsent(s, pat, rep, ps);
    ReplaceRemovesPlaceholder(s, pat, rep);
  }

  // ---------------------------------------------------------------------------
  // post_process_sql
  // ---------------------------------------------------------------------------

  /**
   * `post_process_sql`: whitespace collapsed, comparison operators joined,
   * MySQL interval arithmetic turned into SQLite `datetime` calls, the clock
   * frozen, vital-sign bound names replaced by their numbers, and the `%y`
   * and `%j` format codes upper-cased.
   */
  function PostProcessSql(q: string): (r: string)
    ensures NoneOccur(r, Placeholders)
    ensures !Occurs(r, "%y") && !Occurs(r, "%j")
  {
    var frozen := FreezeClock(RewriteIntervals(SqlRewrites.FixOperatorSpacing(SqlRewrites.CollapseWhitespace(q))));
    FreezeClockRemovesPlaceholders(RewriteIntervals(SqlRewrites.FixOperatorSpacing(SqlRewrites.CollapseWhitespace(q))));
    var vitals := VitalBounds.SubstituteVitalBounds(frozen);
    PlaceholdersHaveNoInserted();
    VitalBoundsKeepAbsent(frozen, Placeholders);
    FixStrftimeKeepsAbsent(vitals, Placeholders);
    SqlRewrites.FixStrftime(vitals)
  }

  lemma RangesInserted()
    ensures forall key | key in VitalBounds.PrecomputedRanges ::
      && |VitalBounds.PrecomputedRanges[key].0| > 0 && AllInserted(VitalBounds.PrecomputedRanges[key].0)
      && |VitalBounds.PrecomputedRanges[key].1| > 0 && AllInserted(VitalBounds.PrecomputedRanges[key].1)
  {
  }

  /** The vital-sign bounds are numbers, so substituting them brings back no absent word. */
  lemma VitalBoundsKeepAbsent(q: string, ps: seq<string>)
    requires InsertFreeWords(ps) && NoneOccur(q, ps)
    ensures NoneOccur(VitalBounds.SubstituteVitalBounds(q), ps)
  {
    RangesInserted();
    match (VitalBounds.SearchTagged(q, VitalBounds.LowerTag), VitalBounds.SearchTagged(q, VitalBounds.UpperTag))
    case (Some(lo), Some(hi)) =>
      var r := VitalBounds.SubstituteFound(q, lo, hi);
      if r != q {
        var key :| key in VitalBounds.PrecomputedRanges &&
          r == ReplaceAll(ReplaceAll(q, lo, VitalBounds.PrecomputedRanges[key].0), hi, VitalBounds.PrecomputedRanges[key].1);
        var (a, b) := VitalBounds.PrecomputedRanges[key];
        ReplaceKeepsPlaceholdersAbsent(q, lo, a, ps);
        ReplaceKeepsPlaceholdersAbsent(ReplaceAll(q, lo, a), hi, b, ps);
      }
    case _ =>
  }

  /** `%Y` and `%J` bring back no absent word either. */
  lemma FixStrftimeKeepsAbsent(q: string, ps: seq<string>)
    requires InsertFreeWords(ps) && NoneOccur(q, ps)
    ensures NoneOccur(SqlRewrites.FixStrftime(q), ps)
  {
    assert AllInserted("%Y") && AllInserted("%J");
    ReplaceKeepsPlaceholdersAbsent(q, "%y", "%Y", ps);
    ReplaceKeepsPlaceholdersAbsent(ReplaceAll(q, "%y", "%Y"), "%j", "%J", ps);
  }

  // ---------------------------------------------------------------------------
  // Text the later stages leave alone, and a worked example
  // ---------------------------------------------------------------------------

  /** Text without newlines, doubled or outer blanks, or `>`, `<`, `!` passes the first two stages. */
  lemma TextFixesIdentity(q: string)
    requires Tidy(q)
    ensures SqlRewrites.FixOperatorSpacing(SqlRewrites.CollapseWhitespace(q)) == q
  {
    AbsentByLeadingPair(q, "  ");
    SqlRewrites.CollapseWhitespaceOfCollapsed(q);
    AbsentWithoutFirstChar(q, "> =");
    AbsentWithoutFirstChar(q, "< =");
    AbsentWithoutFirstChar(q, "! =");
  }

  /** No letter of a clock word. */
  predicate NotClockLetter(ch: char) { ch != 'c' && ch != 'C' && ch != 'n' && ch != 'N' }

  predicate ClockFree(s: string) { forall k | 0 <= k < |s| :: NotClockLetter(s[k]) }

  /** Nothing for the vital-sign and strftime stages to act on. */
  predicate Plain(s: string) { forall k | 0 <= k < |s| :: s[k] != '_' && s[k] != '%' }

  lemma PlainConcat(a: string, b: string)
    requires Plain(a) && Plain(b)
    ensures Plain(a + b)
  {
    assert forall k | |a| <= k < |a + b| :: (a + b)[k] == b[k - |a|];
  }

  /**
   * One clock word amid text without clock letters becomes its own frozen
   * value in quotes, and nothing else changes.
   */
  lemma FreezeClockOfWord(x: string, y: string, i: nat)
    requires i < |ClockWords| && ClockFree(x) && ClockFree(y)
    ensures FreezeClock(x + ClockWords[i] + y) == x + Quoted(FrozenValues[i]) + y
  {
    var s := x + ClockWords[i] + y;
    var t := x + Quoted(FrozenValues[i]) + y;
    forall j | 0 <= j < i ensures FreezeWord(s, j) == s {
      EarlierWordMisses(x, y, i, j);
    }
    FreezeWordHits(x, y, i);
    FrozenValueClockFree(i);
    ClockFreeConcat(x, Quoted(FrozenValues[i]));
    ClockFreeConcat(x + Quoted(FrozenValues[i]), y);
    forall j | i < j < |ClockWords| ensures FreezeWord(t, j) == t {
      FreezeWordClockFree(t, j);
    }
    FreezeClockOfOneHit(s, t, i);
  }

  /** When the rewrites before the `i`-th keep `s`, the `i`-th makes `t`, and those after keep `t`. */
  lemma FreezeClockOfOneHit(s: string, t: string, i: nat)
    requires i < |ClockWords|
    requires forall j | 0 <= j < i :: FreezeWord(s, j) == s
    requires FreezeWord(s, i) == t
    requires forall j | i < j < |ClockWords| :: FreezeWord(t, j) == t
    ensures FreezeClock(s) == t
  {
    var a0 := if 0 < i then s else t;
    assert FreezeWord(s, 0) == a0;
    var a1 := if 1 < i then s else t;
    assert FreezeWord(a0, 1) == a1;
    var a2 := if 2 < i then s else t;
    assert FreezeWord(a1, 2) == a2;
    var a3 := if 3 < i then s else t;
    assert FreezeWord(a2, 3) == a3;
    var a4 := if 4 < i then s else t;
    assert FreezeWord(a3, 4) == a4;
    assert FreezeWord(a4, 5) == t;
  }

  lemma ClockFreeConcat(a: string, b: string)
    requires ClockFree(a) && ClockFree(b)
    ensures ClockFree(a + b)
  {
    assert forall k | |a| <= k < |a + b| :: (a + b)[k] == b[k - |a|];
  }

  lemma FrozenValueClockFree(i: nat)
    requires i < |FrozenValues|
    ensures ClockFree(Quoted(FrozenValues[i]))
  {
  }

  /** The position of a clock letter in the `i`-th clock word. */
  function KeyLetter(i: nat): (k: nat)
    requires i < |ClockWords|
    ensures k < |ClockWords[i]| && !NotClockLetter(ClockWords[i][k])
  {
    if i == 2 then 1 else 0
  }

  lemma ClockLetterAbsent(s: string, i: nat)
    requires i < |ClockWords| && ClockFree(s)
    ensures ClockWords[i][KeyLetter(i)] !in s
  {
  }

  /** Text without clock letters holds no clock word. */
  lemma FreezeWordClockFree(t: string, i: nat)
    requires i < |ClockWords| && ClockFree(t)
    ensures FreezeWord(t, i) == t
  {
    ClockLetterAbsent(t, i);
    AbsentWithoutChar(t, ClockWords[i], KeyLetter(i));
  }

  /** The `i`-th rewrite replaces the one occurrence of its word. */
  lemma FreezeWordHits(x: string, y: string, i: nat)
    requires i < |ClockWords| && ClockFree(x) && ClockFree(y)
    ensures FreezeWord(x + ClockWords[i] + y, i) == x + Quoted(FrozenValues[i]) + y
  {
    var w, rep, k := ClockWords[i], Quoted(FrozenValues[i]), KeyLetter(i);
    assert x + w + y == x + (w + y);
    ClockLetterAbsent(x, i);
    ClockLetterAbsent(y, i);
    assert forall j | 0 <= j < k && j < |w + y| :: (w + y)[j] != w[k];
    ReplaceAllSkipsPrefixAt(x, w + y, w, rep, k);
    ReplaceAllAtPattern(w, y, rep);
    AbsentWithoutChar(y, w, k);
    assert x + (rep + y) == x + rep + y;
  }

  /** The rewrites before the `i`-th find nothing in a text holding only the `i`-th word. */
  lemma EarlierWordMisses(x: string, y: string, i: nat, j: nat)
    requires j < i < |ClockWords| && ClockFree(x) && ClockFree(y)
    ensures FreezeWord(x + ClockWords[i] + y, j) == x + ClockWords[i] + y
  {
    var w, p := ClockWords[i], ClockWords[j];
    ClockLetterAbsent(x, j);
    ClockLetterAbsent(y, j);
    if (i == 1 && j == 0) || (i == 5 && j == 4) {
      assert p[0] !in w[1..];
      ReplaceAllMissesSameLength(x, w, y, p, Quoted(FrozenValues[j]));
    } else {
      assert p[KeyLetter(j)] !in w;
      AbsentWithoutChar(x + w + y, p, KeyLetter(j));
    }
  }

  /** Without `_` and `%` the vital-sign and strftime stages change nothing. */
  lemma LastStagesIdentity(s: string)
    requires Plain(s)
    ensures SqlRewrites.FixStrftime(VitalBounds.SubstituteVitalBounds(s)) == s
  {
    AbsentWithoutFirstChar(s, VitalBounds.LowerTag);
    if VitalBounds.SearchTagged(s, VitalBounds.LowerTag).Some? {
      VitalBounds.SearchTaggedOccurs(s, VitalBounds.LowerTag);
    }
    AbsentWithoutFirstChar(s, "%y");
    AbsentWithoutFirstChar(s, "%j");
  }

  /** Text the first two stages leave alone, as one predicate. */
  predicate Tidy(q: string) {
    && (forall k | 0 <= k < |q| :: q[k] != '\n' && q[k] != '>' && q[k] != '<' && q[k] != '!')
    && (forall k | 0 <= k < |q| - 1 :: !(q[k] == ' ' && q[k + 1] == ' '))
    && (|q| == 0 || (!IsPyWhitespace(q[0]) && !IsPyWhitespace(q[|q| - 1])))
  }

  /** The whole pipeline on one interval call on `NOW()` whose pieces need no other fix. */
  lemma PipelineOfCallOnNow(c: IntervalCall, x: string, y: string)
    requires WellFormed(c) && ConvertDateFunction(c) == x + "NOW()" + y && Tidy(CallText(c))
    requires ClockFree(x) && ClockFree(y) && Plain(x) && Plain(y)
    ensures PostProcessSql(CallText(c)) == x + Quoted(Now) + y
  {
    var q := CallText(c);
    TextFixesIdentity(q);
    RewriteIntervalsOfCall(c);
    FreezeClockOfWord(x, y, 3);
    NowPlain();
    PlainConcat(x, Quoted(Now));
    PlainConcat(x + Quoted(Now), y);
    LastStagesIdentity(x + Quoted(Now) + y);
  }

  lemma RewriteIntervalsOfCall(c: IntervalCall)
    requires WellFormed(c)
    ensures RewriteIntervals(CallText(c)) == ConvertDateFunction(c)
  {
    RewriteIntervalsAtCall(c, "");
    assert CallText(c) + "" == CallText(c);
    assert ConvertDateFunction(c) + "" == ConvertDateFunction(c);
  }

  lemma NowPlain()
    ensures Plain(Quoted(Now))
  {
  }

  /** `DATE_SUB(NOW(), INTERVAL 1 YEAR)` comes out as the SQLite call on the frozen instant. */
  lemma IntervalOnNowExample(c: IntervalCall)
    requires c == IntervalCall("DATE_SUB", "NOW()", ",", "1", "YEAR")
    ensures PostProcessSql(CallText(c)) == "datetime(" + Quoted(Now) + ", '-1 year')"
  {
    var x, y := "datetime(", ", '-1 year')";
    ExampleWellFormed(c);
    ExampleConverted(c, x, y);
    ExampleTidy(c);
    ExamplePieces(x, y);
    PipelineOfCallOnNow(c, x, y);
  }

  lemma ExampleTidy(c: IntervalCall)
    requires c == IntervalCall("DATE_SUB", "NOW()", ",", "1", "YEAR")
    ensures Tidy(CallText(c))
  {
    ExampleLetters(c);
    ExampleBlanks(c);
  }

  lemma ExampleLetters(c: IntervalCall)
    requires c == IntervalCall("DATE_SUB", "NOW()", ",", "1", "YEAR")
    ensures forall k | 0 <= k < |CallText(c)| ::
      CallText(c)[k] != '\n' && CallText(c)[k] != '>' && CallText(c)[k] != '<' && CallText(c)[k] != '!'
  {
  }

  lemma ExampleBlanks(c: IntervalCall)
    requires c == IntervalCall("DATE_SUB", "NOW()", ",", "1", "YEAR")
    ensures forall k | 0 <= k < |CallText(c)| - 1 :: !(CallText(c)[k] == ' ' && CallText(c)[k + 1] == ' ')
    ensures !IsPyWhitespace(CallText(c)[0]) && !IsPyWhitespace(CallText(c)[|CallText(c)| - 1])
  {
  }

  lemma ExampleWellFormed(c: IntervalCall)
    requires c == IntervalCall("DATE_SUB", "NOW()", ",", "1", "YEAR")
    ensures WellFormed(c)
  {
    assert c.date[|c.date| - 2..] == "()";
  }

  lemma ExampleConverted(c: IntervalCall, x: string, y: string)
    requires c == IntervalCall("DATE_SUB", "NOW()", ",", "1", "YEAR")
    requires x == "datetime(" && y == ", '-1 year')"
    ensures ConvertDateFunction(c) == x + "NOW()" + y
  {
    ExampleWellFormed(c);
    ConvertDateFunctionShape(c);
    LowerUnit(c.unit);
  }

  lemma ExamplePieces(x: string, y: string)
    requires x == "datetime(" && y == ", '-1 year')"
    ensures ClockFree(x) && ClockFree(y) && Plain(x) && Plain(y)
  {
  }
}
