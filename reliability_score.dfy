/**
 * The first task's scoring module: execute gold and predicted queries side
 * by side, score every sample, and report the accuracy under penalties 0, 10
 * and the number of samples. The database is an oracle, as in `ScoringUtils`.
 */
module ReliabilityScore {
  import opened Wrappers
  import opened Dicts
  import opened Outcomes
  import Ordering
  import ScoringUtils

  type Database = ScoringUtils.Database

  /**
   * `process_answer` of this module: the first hundred rows are kept, then
   * printed and sorted. The result is a sorted rearrangement of those rows.
   */
  function ProcessAnswer(rows: seq<string>): (r: seq<string>)
    ensures Ordering.Sorted(r)
    ensures multiset(r) == multiset(ScoringUtils.Take(rows, ScoringUtils.MaxRows))
  {
    Ordering.Sort(ScoringUtils.Take(rows, ScoringUtils.MaxRows))
  }

  /** Rows after the hundredth never change the canonical answer. */
  lemma ProcessAnswerIgnoresTail(rows: seq<string>, more: seq<string>)
    requires |rows| >= ScoringUtils.MaxRows
    ensures ProcessAnswer(rows + more) == ProcessAnswer(rows)
  {
    assert (rows + more)[..ScoringUtils.MaxRows] == rows[..ScoringUtils.MaxRows];
  }

  /** Up to a hundred rows the two canonicalisations agree. */
  lemma ProcessAnswersAgreeOnShortResults(rows: seq<string>)
    requires |rows| <= ScoringUtils.MaxRows
    ensures ProcessAnswer(rows) == ScoringUtils.ProcessAnswer(rows)
  {
    var sorted := Ordering.Sort(rows);
    assert |sorted| == |multiset(sorted)| == |multiset(rows)| == |rows|;
    assert ScoringUtils.Take(rows, ScoringUtils.MaxRows) == rows[..|rows|] == rows;
    assert ScoringUtils.Take(sorted, ScoringUtils.MaxRows) == sorted[..|sorted|] == sorted;
  }

  /**
   * `execute`: the skip indicator is returned without opening the database;
   * other text is run, and a failure is an exception, modelled as `None`.
   */
  function Execute(sql: string, db: Database): (r: Option<Answer>)
    ensures sql == ScoringUtils.SkipIndicator ==> r == Some(Skip)
    ensures r.None? <==> sql != ScoringUtils.SkipIndicator && db(sql).Failed?
    ensures r.Some? && sql != ScoringUtils.SkipIndicator ==> r.value == Rows(ProcessAnswer(db(sql).rows))
  {
    if sql != ScoringUtils.SkipIndicator then
      match db(sql)
      case Fetched(rows) => Some(Rows(ProcessAnswer(rows)))
      case Failed => None
    else Some(Skip)
  }

  /** The record `{'id': key, 'real': ..., 'pred': ...}`. */
  datatype QueryResult = QueryResult(id: string, gold: Answer, pred: Answer)

  /**
   * `execute_query`: both sides are executed; a gold failure becomes
   * `'error1'` and a predicted failure `'error2'`.
   */
  function ExecuteQuery(key: string, goldSql: string, predSql: string, db: Database): (r: QueryResult)
    ensures r.id == key
    ensures r.gold == (if Execute(goldSql, db).Some? then Execute(goldSql, db).value else Error("error1"))
    ensures r.pred == (if Execute(predSql, db).Some? then Execute(predSql, db).value else Error("error2"))
    ensures r.gold.Error? ==> r.gold.message == "error1"
    ensures r.pred.Error? ==> r.pred.message == "error2"
  {
    var gold := match Execute(goldSql, db) case Some(a) => a case None => Error("error1");
    var pred := match Execute(predSql, db) case Some(a) => a case None => Error("error2");
    QueryResult(key, gold, pred)
  }

  /** A failed gold query is never matched by the prediction. */
  lemma GoldErrorNeverMatches(key: string, goldSql: string, predSql: string, db: Database)
    requires ExecuteQuery(key, goldSql, predSql, db).gold.Error?
    ensures Score(ExecuteQuery(key, goldSql, predSql, db).gold, ExecuteQuery(key, goldSql, predSql, db).pred) != 1
  {
    var r := ExecuteQuery(key, goldSql, predSql, db);
    if r.pred.Error? {
      assert r.pred.message[5] == '2' && r.gold.message[5] == '1';
    }
  }

  /** The score of each gold key, in the gold order. */
  function ExpectedScores(gold: Dict<string>, pred: Dict<string>, db: Database): (r: seq<int>)
    requires gold.Valid() && KeySet(gold) == KeySet(pred)
    ensures |r| == |gold.keys| && AllScores(r)
  {
    seq(|gold.keys|, i requires 0 <= i < |gold.keys| =>
      var res := ExecuteQuery(gold.keys[i], gold.items[gold.keys[i]], pred.items[gold.keys[i]], db);
      ScoreRange(res.gold, res.pred);
      Score(res.gold, res.pred))
  }

  datatype Outcome = IdsDoNotMatch | NoSamples | Accuracies(acc0: real, acc10: real, accN: real)

  /** The three accuracies: penalties 0, 10 and the number of samples, times 100. */
  function AccuraciesOf(scores: seq<int>): (r: Outcome)
    ensures r != IdsDoNotMatch
    ensures r == NoSamples <==> |scores| == 0
  {
    if |scores| == 0 then NoSamples
    else Accuracies(100.0 * Penalize(scores, 0).value, 100.0 * Penalize(scores, 10).value,
      100.0 * Penalize(scores, |scores|).value)
  }

  /**
   * accuracy0 lies in [0, 100], accuracy10 in [-1000, 100], and with at least
   * ten samples accuracyN <= accuracy10 <= accuracy0.
   */
  lemma AccuraciesOrdered(scores: seq<int>)
    requires AllScores(scores) && |scores| > 0
    ensures var a := AccuraciesOf(scores);
      && 0.0 <= a.acc0 <= 100.0
      && -1000.0 <= a.acc10 <= a.acc0
      && (|scores| >= 10 ==> a.accN <= a.acc10)
  {
    PenalizeBounds(scores, 0);
    PenalizeBounds(scores, 10);
    PenalizeAntitone(scores, 0, 10);
    if |scores| >= 10 {
      PenalizeAntitone(scores, 10, |scores|);
    }
  }

  /** The accuracies do not depend on the order in which the results arrive. */
  lemma AccuraciesIgnoreOrder(a: seq<int>, b: seq<int>)
    requires multiset(a) == multiset(b)
    ensures AccuraciesOf(a) == AccuraciesOf(b)
  {
    assert |a| == |multiset(a)| == |multiset(b)| == |b|;
    PenalizeIgnoresOrder(a, b, 0);
    PenalizeIgnoresOrder(a, b, 10);
    PenalizeIgnoresOrder(a, b, |a|);
  }

  /**
   * `execute_query_distributed`, run one query pair after the other: one
   * result per pair, in the order of the pairs.
   */
  method ExecuteQueryDistributed(pairs: seq<(string, string, string)>, db: Database) returns (results: seq<QueryResult>)
    ensures |results| == |pairs|
    ensures forall j | 0 <= j < |pairs| :: results[j] == ExecuteQuery(pairs[j].0, pairs[j].1, pairs[j].2, db)
  {
    results := [];
    var i := 0;
    while i < |pairs|
      invariant 0 <= i <= |pairs| && |results| == i
      invariant forall j | 0 <= j < i :: results[j] == ExecuteQuery(pairs[j].0, pairs[j].1, pairs[j].2, db)
    {
      var (key, goldSql, predSql) := pairs[i];
      results := results + [ExecuteQuery(key, goldSql, predSql, db)];
      i := i + 1;
    }
  }

  /**
   * `calculate_score`: different id sets stop it before anything runs;
   * otherwise the pairs are executed in gold order and each result is scored.
   */
  method CalculateScore(gold: Dict<string>, pred: Dict<string>, db: Database) returns (o: Outcome)
    requires gold.Valid() && pred.Valid()
    ensures o == IdsDoNotMatch <==> KeySet(gold) != KeySet(pred)
    ensures o != IdsDoNotMatch ==> o == AccuraciesOf(ExpectedScores(gold, pred, db))
  {
    if KeySet(gold) != KeySet(pred) {
      return IdsDoNotMatch;
    }
    var pairs: seq<(string, string, string)> := [];
    var i := 0;
    while i < |gold.keys|
      invariant 0 <= i <= |gold.keys| && |pairs| == i
      invariant forall j | 0 <= j < i ::
        pairs[j] == (gold.keys[j], gold.items[gold.keys[j]], pred.items[gold.keys[j]])
    {
      var key := gold.keys[i];
      pairs := pairs + [(key, gold.items[key], pred.items[key])];
      i := i + 1;
    }
    var results := ExecuteQueryDistributed(pairs, db);
    var scores: seq<int> := [];
    i := 0;
    while i < |results|
      invariant 0 <= i <= |results| && |scores| == i
      invariant forall j | 0 <= j < i :: scores[j] == Score(results[j].gold, results[j].pred)
    {
      scores := scores + [Score(results[i].gold, results[i].pred)];
      i := i + 1;
    }
    var expected := ExpectedScores(gold, pred, db);
    forall j | 0 <= j < |scores| ensures scores[j] == expected[j] {
      assert results[j] == ExecuteQuery(gold.keys[j], gold.items[gold.keys[j]], pred.items[gold.keys[j]], db);
    }
    assert scores == expected;
    o := AccuraciesOf(scores);
  }
}
