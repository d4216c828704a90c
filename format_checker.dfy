/**
 * The submission validator: every record must carry an `id` and a `label`,
 * and at most half of the labels may be the skip indicator `null`. A record
 * is a JSON object whose values are strings.
 */
module FormatChecker {

  /** The keys checked on every record, in this order. */
  const Columns: seq<string> := ["id", "label"]

  type Record = map<string, string>

  predicate WellFormed(line: Record) {
    "id" in line && "label" in line
  }

  predicate AllWellFormed(submission: seq<Record>) {
    forall i | 0 <= i < |submission| :: WellFormed(submission[i])
  }

  /** The label of each record, in submission order. */
  function Labels(submission: seq<Record>): (r: seq<string>)
    requires AllWellFormed(submission)
    ensures |r| == |submission|
    ensures forall i | 0 <= i < |r| :: r[i] == submission[i]["label"]
  {
    seq(|submission|, i requires 0 <= i < |submission| => submission[i]["label"])
  }

  /** Every element twice in a row: what appending the label once per column builds. */
  function Doubled(xs: seq<string>): (r: seq<string>)
    decreases |xs|
  {
    if |xs| == 0 then [] else Doubled(xs[..|xs| - 1]) + [xs[|xs| - 1], xs[|xs| - 1]]
  }

  lemma {:induction false} DoubledLength(xs: seq<string>)
    ensures |Doubled(xs)| == 2 * |xs|
    decreases |xs|
  {
    if |xs| > 0 {
      DoubledLength(xs[..|xs| - 1]);
    }
  }

  lemma {:induction false} DoubledMultiset(xs: seq<string>)
    ensures multiset(Doubled(xs)) == multiset(xs) + multiset(xs)
    decreases |xs|
  {
    if |xs| > 0 {
      var init, last := xs[..|xs| - 1], xs[|xs| - 1];
      DoubledMultiset(init);
      assert Doubled(xs) == Doubled(init) + [last, last];
      assert multiset([last, last]) == multiset([last]) + multiset([last]);
      assert xs == init + [last];
    }
  }

  /** `prediction.count('null') > len(prediction) // 2`. */
  predicate NullMajority(prediction: seq<string>) {
    multiset(prediction)["null"] > |prediction| / 2
  }

  /**
   * The decision the validator takes: all records well formed and the
   * doubled label list not mostly `null`.
   */
  predicate Accepts(submission: seq<Record>) {
    AllWellFormed(submission) && !NullMajority(Doubled(Labels(submission)))
  }

  /**
   * Doubling the list changes nothing: the rule on the doubled list is the
   * rule on the labels themselves, and both say "at most half are `null`".
   */
  lemma {:induction false} DoubledRuleIsUndoubledRule(labels: seq<string>)
    ensures NullMajority(Doubled(labels)) <==> NullMajority(labels)
    ensures !NullMajority(labels) <==> 2 * multiset(labels)["null"] <= |labels|
  {
    DoubledLength(labels);
    DoubledMultiset(labels);
  }

  /** A submission is accepted exactly when its records are well formed and at most half its labels are `null`. */
  lemma AcceptsAtMostHalfNull(submission: seq<Record>)
    ensures Accepts(submission) <==>
      AllWellFormed(submission) && 2 * multiset(Labels(submission))["null"] <= |submission|
  {
    if AllWellFormed(submission) {
      DoubledRuleIsUndoubledRule(Labels(submission));
    }
  }

  /** Exactly half `null` is still accepted. */
  lemma HalfNullAccepted(submission: seq<Record>)
    requires AllWellFormed(submission)
    requires 2 * multiset(Labels(submission))["null"] == |submission|
    ensures Accepts(submission)
  {
    AcceptsAtMostHalfNull(submission);
  }

  /** The empty submission is accepted. */
  lemma EmptyAccepted()
    ensures Accepts([])
  {
    AcceptsAtMostHalfNull([]);
  }

  /** A record without an `id` or a `label` is rejected whatever the rest holds. */
  lemma MissingKeyRejected(submission: seq<Record>, i: nat)
    requires i < |submission| && !WellFormed(submission[i])
    ensures !Accepts(submission)
  {
  }

  lemma LabelsSnoc(submission: seq<Record>, i: nat)
    requires i < |submission| && AllWellFormed(submission[..i]) && WellFormed(submission[i])
    ensures AllWellFormed(submission[..i + 1])
    ensures Labels(submission[..i + 1]) == Labels(submission[..i]) + [submission[i]["label"]]
  {
    assert submission[..i + 1] == submission[..i] + [submission[i]];
  }

  lemma DoubledSnoc(xs: seq<string>, x: string)
    ensures Doubled(xs + [x]) == Doubled(xs) + [x, x]
  {
    assert (xs + [x])[..|xs|] == xs;
  }

  /**
   * `check_format` once the file is read: each record is checked column by
   * column, with the label appended after each column that is present. A
   * missing column returns False, and so does the `KeyError` of reading a
   * missing label, which the surrounding `except` catches.
   */
  method CheckFormat(submission: seq<Record>) returns (ok: bool)
    ensures ok <==> Accepts(submission)
  {
    var prediction: seq<string> := [];
    var i := 0;
    while i < |submission|
      invariant 0 <= i <= |submission|
      invariant AllWellFormed(submission[..i])
      invariant prediction == Doubled(Labels(submission[..i]))
    {
      var line := submission[i];
      var before := prediction;
      var c := 0;
      while c < |Columns|
        invariant 0 <= c <= |Columns|
        invariant c == 0 ==> prediction == before
        invariant c > 0 ==> WellFormed(line) && prediction == before + seq(c, _ => line["label"])
      {
        if Columns[c] !in line || "label" !in line {
          assert !WellFormed(submission[i]);
          return false;
        }
        prediction := prediction + [line["label"]];
        c := c + 1;
      }
      assert prediction == before + [line["label"], line["label"]];
      LabelsSnoc(submission, i);
      DoubledSnoc(Labels(submission[..i]), line["label"]);
      i := i + 1;
    }
    assert submission[..i] == submission;
    if NullMajority(prediction) {
      return false;
    }
    return true;
  }
}
