/**
 * The older SQL normaliser of the task's first scorer: the same whitespace,
 * operator and vital-sign rewrites as `post_process_sql`, a different frozen
 * instant that only replaces `current_time`, a collapse of doubled quotes,
 * and no handling of MySQL interval or clock calls.
 */
module LegacyScorer {
  import opened Text
  import SqlRewrites
  import VitalBounds
  import PostProcessing

  /** The instant this scorer freezes `current_time` at. */
  const CurrentTime := "2105-12-31 23:59:00"

  /** The one clock word this scorer knows. */
  const ClockWord := "current_time"

  /** `query.replace("''", "'")`: each doubled quote, read from the left, becomes one. */
  function CollapseDoubledQuotes(q: string): (r: string)
    ensures |r| <= |q|
    ensures !Occurs(q, "''") ==> r == q
  {
    ReplaceAll(q, "''", "'")
  }

  /** A doubled quote between quote-free texts becomes one quote, and nothing else changes. */
  lemma CollapseDoubledQuotesJoins(x: string, y: string)
    requires '\'' !in x && '\'' !in y
    ensures CollapseDoubledQuotes(x + "''" + y) == x + "'" + y
  {
    ReplaceAllWithoutFirstChar(y, "''", "'");
    ReplaceAllOnce(x, "''", y, "'");
  }

  /**
   * `post_process_sql` of the first scorer. No `current_time` survives it and
   * neither does a `%y` or `%j` format code.
   */
  function PostProcessSql(q: string): (r: string)
    ensures !Occurs(r, ClockWord)
    ensures !Occurs(r, "%y") && !Occurs(r, "%j")
  {
    var tidy := SqlRewrites.FixOperatorSpacing(SqlRewrites.CollapseWhitespace(q));
    var frozen := PostProcessing.ReplaceIfPresent(tidy, ClockWord, PostProcessing.Quoted(CurrentTime));
    var vitals := VitalBounds.SubstituteVitalBounds(frozen);
    var unquoted := CollapseDoubledQuotes(vitals);
    ClockWordStaysAway(tidy, frozen, vitals, unquoted);
    SqlRewrites.FixStrftime(unquoted)
  }

  /** Once replaced, `current_time` is not brought back by any later stage. */
  lemma ClockWordStaysAway(tidy: string, frozen: string, vitals: string, unquoted: string)
    requires frozen == ReplaceAll(tidy, ClockWord, PostProcessing.Quoted(CurrentTime))
    requires vitals == VitalBounds.SubstituteVitalBounds(frozen)
    requires unquoted == CollapseDoubledQuotes(vitals)
    ensures !Occurs(SqlRewrites.FixStrftime(unquoted), ClockWord)
  {
    var ps := [ClockWord];
    PostProcessing.PlaceholdersHaveNoInserted();
    assert PostProcessing.Placeholders[0] == ClockWord;
    assert PostProcessing.InsertFreeWords(ps);
    assert PostProcessing.AllInserted(PostProcessing.Quoted(CurrentTime));
    PostProcessing.ReplaceRemovesPlaceholder(tidy, ClockWord, PostProcessing.Quoted(CurrentTime));
    assert PostProcessing.NoneOccur(frozen, ps);
    PostProcessing.VitalBoundsKeepAbsent(frozen, ps);
    assert PostProcessing.AllInserted("'");
    PostProcessing.ReplaceKeepsPlaceholdersAbsent(vitals, "''", "'", ps);
    PostProcessing.FixStrftimeKeepsAbsent(unquoted, ps);
    assert PostProcessing.NoneOccur(SqlRewrites.FixStrftime(unquoted), ps);
    assert ps[0] == ClockWord;
  }

  /**
   * Text that is already tidy and holds none of this scorer's triggers comes
   * out unchanged: in particular MySQL calls such as `DATE_SUB` and `NOW()`
   * pass through, since this scorer has no rule for them.
   */
  lemma PostProcessSqlIdentity(q: string)
    requires PostProcessing.Tidy(q)
    requires !Occurs(q, ClockWord) && !Occurs(q, VitalBounds.LowerTag) && !Occurs(q, "''")
    requires !Occurs(q, "%y") && !Occurs(q, "%j")
    ensures PostProcessSql(q) == q
  {
    PostProcessing.TextFixesIdentity(q);
  }

  /** `DATE_SUB(NOW(), INTERVAL 1 YEAR)` is left as it is. */
  lemma IntervalOnNowUnchanged(c: PostProcessing.IntervalCall)
    requires c == PostProcessing.IntervalCall("DATE_SUB", "NOW()", ",", "1", "YEAR")
    ensures PostProcessSql(PostProcessing.CallText(c)) == PostProcessing.CallText(c)
  {
    var q := PostProcessing.CallText(c);
    PostProcessing.ExampleTidy(c);
    ExampleHasNoTrigger(c);
    AbsentWithoutFirstChar(q, ClockWord);
    AbsentWithoutChar(q, VitalBounds.LowerTag, 1);
    AbsentWithoutFirstChar(q, "''");
    AbsentWithoutFirstChar(q, "%y");
    AbsentWithoutFirstChar(q, "%j");
    PostProcessSqlIdentity(q);
  }

  lemma ExampleHasNoTrigger(c: PostProcessing.IntervalCall)
    requires c == PostProcessing.IntervalCall("DATE_SUB", "NOW()", ",", "1", "YEAR")
    ensures forall k | 0 <= k < |PostProcessing.CallText(c)| ::
      PostProcessing.CallText(c)[k] != 'c' && PostProcessing.CallText(c)[k] != 'l' &&
      PostProcessing.CallText(c)[k] != '\'' && PostProcessing.CallText(c)[k] != '%'
  {
  }

  /** Neither a quote nor a `c`, so neither a doubled quote nor `current_time` can start here. */
  predicate Quiet(s: string) {
    forall k | 0 <= k < |s| :: s[k] != '\'' && s[k] != 'c'
  }

  /**
   * A quoted `'current_time'` becomes the frozen instant in single quotes:
   * the replacement brings its own quotes, and the doubled quotes this makes
   * are collapsed afterwards.
   */
  lemma QuotedClockWord(x: string, y: string)
    requires PostProcessing.Tidy(x + "'current_time'" + y)
    requires Quiet(x) && Quiet(y) && PostProcessing.Plain(x) && PostProcessing.Plain(y)
    ensures PostProcessSql(x + "'current_time'" + y) == x + PostProcessing.Quoted(CurrentTime) + y
  {
    var s := x + "'current_time'" + y;
    PostProcessing.TextFixesIdentity(s);
    var frozen := x + "''" + CurrentTime + "''" + y;
    ClockWordReplaced(x, y);
    PlainFrozen(x, y);
    AbsentWithoutFirstChar(frozen, VitalBounds.LowerTag);
    var out := x + PostProcessing.Quoted(CurrentTime) + y;
    DoubledQuotesCollapsed(x, y);
    PlainOut(x, y);
    AbsentWithoutFirstChar(out, "%y");
    AbsentWithoutFirstChar(out, "%j");
  }

  /** The word on its own, quoted, ends as the quoted instant `'2105-12-31 23:59:00'`. */
  lemma QuotedClockWordAlone()
    ensures PostProcessSql("'current_time'") == PostProcessing.Quoted(CurrentTime)
  {
    ClockWordAloneShape();
    ClockWordAloneTidy();
    QuotedClockWord("", "");
  }

  lemma ClockWordAloneShape()
    ensures "" + "'current_time'" + "" == "'current_time'"
    ensures "" + PostProcessing.Quoted(CurrentTime) + "" == PostProcessing.Quoted(CurrentTime)
    ensures Quiet("") && PostProcessing.Plain("")
  {
  }

  lemma ClockWordAloneTidy()
    ensures PostProcessing.Tidy("'current_time'")
  {
  }

  lemma ClockWordReplaced(x: string, y: string)
    requires Quiet(x) && Quiet(y)
    ensures PostProcessing.ReplaceIfPresent(x + "'current_time'" + y, ClockWord, PostProcessing.Quoted(CurrentTime))
      == x + "''" + CurrentTime + "''" + y
  {
    var rep := PostProcessing.Quoted(CurrentTime);
    assert x + "'current_time'" + y == (x + "'") + (ClockWord + ("'" + y));
    ReplaceAllSkipsPrefix(x + "'", ClockWord + ("'" + y), ClockWord, rep);
    ReplaceAllAtPattern(ClockWord, "'" + y, rep);
    ReplaceAllWithoutFirstChar("'" + y, ClockWord, rep);
    assert (x + "'") + (rep + ("'" + y)) == x + "''" + CurrentTime + "''" + y;
  }

  lemma PlainFrozen(x: string, y: string)
    requires PostProcessing.Plain(x) && PostProcessing.Plain(y)
    ensures PostProcessing.Plain(x + "''" + CurrentTime + "''" + y)
  {
    assert PostProcessing.Plain("''" + CurrentTime + "''");
    PostProcessing.PlainConcat(x, "''" + CurrentTime + "''");
    assert x + "''" + CurrentTime + "''" == x + ("''" + CurrentTime + "''");
    PostProcessing.PlainConcat(x + "''" + CurrentTime + "''", y);
  }

  lemma PlainOut(x: string, y: string)
    requires PostProcessing.Plain(x) && PostProcessing.Plain(y)
    ensures PostProcessing.Plain(x + PostProcessing.Quoted(CurrentTime) + y)
  {
    assert PostProcessing.Plain(PostProcessing.Quoted(CurrentTime));
    PostProcessing.PlainConcat(x, PostProcessing.Quoted(CurrentTime));
    PostProcessing.PlainConcat(x + PostProcessing.Quoted(CurrentTime), y);
  }

  /** The two doubled quotes around the instant each collapse to one. */
  lemma DoubledQuotesCollapsed(x: string, y: string)
    requires Quiet(x) && Quiet(y)
    ensures CollapseDoubledQuotes(x + "''" + CurrentTime + "''" + y) == x + PostProcessing.Quoted(CurrentTime) + y
  {
    var t := CurrentTime + ("''" + y);
    assert x + "''" + CurrentTime + "''" + y == x + ("''" + t);
    ReplaceAllSkipsPrefix(x, "''" + t, "''", "'");
    ReplaceAllAtPattern("''", t, "'");
    assert t == CurrentTime + ("''" + y);
    ReplaceAllSkipsPrefix(CurrentTime, "''" + y, "''", "'");
    ReplaceAllAtPattern("''", y, "'");
    ReplaceAllWithoutFirstChar(y, "''", "'");
  }
}
