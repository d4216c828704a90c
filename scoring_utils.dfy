/**
 * The helpers of the official scoring program: canonicalising fetched rows,
 * executing every query of one side, and scoring each sample. The database
 * is an oracle from SQL text to rows or a failure.
 */
module ScoringUtils {
  import opened Wrappers
  import opened Dicts
  import opened Outcomes
  import Ordering

  /** What executing one query yields: its rows, each printed as `str(row)`, or an exception. */
  datatype Fetch = Fetched(rows: seq<string>) | Failed

  /** The database, as seen through `sqlite3`: any SQL text either fetches rows or fails. */
  type Database = string -> Fetch

  /** The value standing for an abstention. */
  const SkipIndicator := "null"

  /** Only the first hundred records are compared. */
  const MaxRows := 100

  /** `s[:n]`. */
  function Take(s: seq<string>, n: nat): (r: seq<string>)
    ensures |r| == (if |s| < n then |s| else n)
    ensures r == s[..|r|]
  {
    if |s| < n then s else s[..n]
  }

  lemma TakeIsSubMultiset(s: seq<string>, n: nat)
    ensures multiset(Take(s, n)) <= multiset(s)
  {
    var k := |Take(s, n)|;
    assert s == s[..k] + s[k..];
  }

  /**
   * `process_answer`: all rows printed and sorted, then the first hundred
   * kept. The result is sorted, holds rows of the input only, and is as long
   * as the input up to a hundred.
   */
  function ProcessAnswer(rows: seq<string>): (r: seq<string>)
    ensures Ordering.Sorted(r)
    ensures |r| == (if |rows| < MaxRows then |rows| else MaxRows)
    ensures multiset(r) <= multiset(rows)
  {
    var sorted := Ordering.Sort(rows);
    TakeIsSubMultiset(sorted, MaxRows);
    Take(sorted, MaxRows)
  }

  /** Because everything is sorted before the cut, the order rows arrive in does not matter. */
  lemma ProcessAnswerIgnoresOrder(a: seq<string>, b: seq<string>)
    requires multiset(a) == multiset(b)
    ensures ProcessAnswer(a) == ProcessAnswer(b)
  {
    Ordering.SortIgnoresOrder(a, b);
  }

  /** The rows that are cut off are never below the rows that are kept. */
  lemma ProcessAnswerKeepsLeast(rows: seq<string>, i: nat, j: nat)
    requires var sorted := Ordering.Sort(rows); i < |ProcessAnswer(rows)| <= j < |sorted|
    ensures Ordering.LexLe(ProcessAnswer(rows)[i], Ordering.Sort(rows)[j])
  {
  }

  /**
   * `execute_sql_wrapper`: the skip indicator comes back as it is without
   * touching the database; otherwise the rows are canonicalised, and any
   * failure becomes the string `'error_' + tag`.
   */
  function ExecuteSqlWrapper(key: string, sql: string, db: Database, tag: string): (r: (string, Answer))
    requires tag == "real" || tag == "pred"
    ensures r.0 == key
    ensures r.1 == Skip <==> sql == SkipIndicator
    ensures r.1.Error? <==> sql != SkipIndicator && db(sql).Failed?
    ensures r.1.Error? ==> r.1.message == "error_" + tag
    ensures r.1.Rows? ==> r.1.canon == ProcessAnswer(db(sql).rows)
  {
    if sql != SkipIndicator then
      match db(sql)
      case Fetched(rows) => (key, Rows(ProcessAnswer(rows)))
      case Failed => (key, Error("error_" + tag))
    else (key, Skip)
  }

  /** A skipped query gives the same answer whatever the database holds. */
  lemma SkipIgnoresDatabase(key: string, db1: Database, db2: Database, tag: string)
    requires tag == "real" || tag == "pred"
    ensures ExecuteSqlWrapper(key, SkipIndicator, db1, tag) == ExecuteSqlWrapper(key, SkipIndicator, db2, tag)
  {
  }

  /** A failed gold query never matches any predicted answer, so it never scores 1. */
  lemma GoldErrorNeverMatches(k1: string, gold: string, k2: string, pred: string, db: Database)
    requires ExecuteSqlWrapper(k1, gold, db, "real").1.Error?
    ensures ExecuteSqlWrapper(k1, gold, db, "real").1 != ExecuteSqlWrapper(k2, pred, db, "pred").1
    ensures Score(ExecuteSqlWrapper(k1, gold, db, "real").1, ExecuteSqlWrapper(k2, pred, db, "pred").1) != 1
  {
    var p := ExecuteSqlWrapper(k2, pred, db, "pred").1;
    if p.Error? {
      assert p.message[6] == 'p' && ("error_" + "real")[6] == 'r';
    }
  }

  /**
   * `execute_all`: one entry per key of the input, in the same order, each
   * holding that key's answer.
   */
  method ExecuteAll(queries: Dict<string>, db: Database, tag: string) returns (r: Dict<Answer>)
    requires queries.Valid() && (tag == "real" || tag == "pred")
    ensures r.Valid() && r.keys == queries.keys && KeySet(r) == KeySet(queries)
    ensures forall k | k in queries.items :: r.items[k] == ExecuteSqlWrapper(k, queries.items[k], db, tag).1
  {
    r := Empty();
    var i := 0;
    while i < |queries.keys|
      invariant 0 <= i <= |queries.keys|
      invariant r.Valid() && r.keys == queries.keys[..i]
      invariant forall k | k in r.items :: k in queries.items && r.items[k] == ExecuteSqlWrapper(k, queries.items[k], db, tag).1
    {
      var key := queries.keys[i];
      var sql := queries.items[key];
      assert key !in queries.keys[..i];
      r := r.Put(key, ExecuteSqlWrapper(key, sql, db, tag).1);
      i := i + 1;
    }
    assert queries.keys[..i] == queries.keys;
  }

  /**
   * `reliability_score`: one score per gold key, in the gold order, and the
   * same scores by key (what `return_dict=True` adds). Every score is -1, 0 or 1.
   */
  method ReliabilityScore(gold: Dict<Answer>, pred: Dict<Answer>) returns (scores: seq<int>, byKey: Dict<int>)
    requires gold.Valid() && (forall k | k in gold.items :: k in pred.items)
    ensures |scores| == |gold.keys| && AllScores(scores)
    ensures forall i | 0 <= i < |gold.keys| ::
      scores[i] == Score(gold.items[gold.keys[i]], pred.items[gold.keys[i]])
    ensures byKey.Valid() && byKey.keys == gold.keys
    ensures forall i | 0 <= i < |gold.keys| :: byKey.items[gold.keys[i]] == scores[i]
  {
    scores := [];
    byKey := Empty();
    var i := 0;
    while i < |gold.keys|
      invariant 0 <= i <= |gold.keys|
      invariant |scores| == i && AllScores(scores)
      invariant forall j | 0 <= j < i :: scores[j] == Score(gold.items[gold.keys[j]], pred.items[gold.keys[j]])
      invariant byKey.Valid() && byKey.keys == gold.keys[..i]
      invariant forall j | 0 <= j < i :: byKey.items[gold.keys[j]] == scores[j]
    {
      var key := gold.keys[i];
      var score := Score(gold.items[key], pred.items[key]);
      ScoreRange(gold.items[key], pred.items[key]);
      assert key !in gold.keys[..i];
      scores := scores + [score];
      byKey := byKey.Put(key, score);
      i := i + 1;
    }
    assert gold.keys[..i] == gold.keys;
  }

  /** The four numbers the official script reports, each a penalised mean times 100. */
  datatype Accuracies = Accuracies(acc0: real, acc5: real, acc10: real, accN: real)

  /** Penalties 0, 5, 10 and the number of samples; no samples gives numpy's `nan`. */
  function OfficialAccuracies(scores: seq<int>): (r: Option<Accuracies>)
    ensures r.None? <==> |scores| == 0
  {
    if |scores| == 0 then None
    else Some(Accuracies(
      100.0 * Penalize(scores, 0).value, 100.0 * Penalize(scores, 5).value,
      100.0 * Penalize(scores, 10).value, 100.0 * Penalize(scores, |scores|).value))
  }

  /**
   * The unpenalised accuracy lies in [0, 100], each penalty lies in
   * [-100p, 100], and a heavier penalty never scores higher: with at least
   * ten samples, accuracyN <= accuracy10 <= accuracy5 <= accuracy0.
   */
  lemma OfficialAccuraciesOrdered(scores: seq<int>)
    requires AllScores(scores) && |scores| > 0
    ensures var a := OfficialAccuracies(scores).value;
      && 0.0 <= a.acc0 <= 100.0
      && -500.0 <= a.acc5 <= 100.0
      && -1000.0 <= a.acc10 <= 100.0
      && a.acc10 <= a.acc5 <= a.acc0
      && (|scores| >= 10 ==> a.accN <= a.acc10)
  {
    PenalizeBounds(scores, 0);
    PenalizeBounds(scores, 5);
    PenalizeBounds(scores, 10);
    PenalizeAntitone(scores, 0, 5);
    PenalizeAntitone(scores, 5, 10);
    if |scores| >= 10 {
      PenalizeAntitone(scores, 10, |scores|);
    }
  }
}
