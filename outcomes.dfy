/**
 * What both scoring programs do with executed answers: the answer values
 * compared, the five-case reliability score of one sample, and the mean of
 * the scores with every wrong answer charged a penalty.
 */
module Outcomes {
  import opened Wrappers

  /**
   * The value an execution produces. The programs compare these as strings:
   * the skip indicator `'null'`, the printed canonical list of result rows
   * (which starts with `[`, so it is never one of the other strings), or an
   * error string such as `'error_real'` or `'error1'`.
   */
  datatype Answer = Skip | Rows(canon: seq<string>) | Error(message: string)

  /**
   * The score of one sample from the gold answer `gold` (the source's
   * `ans_real`) and the predicted one `pred`. The five source cases come down to: 1 when the two answers are
   * equal (also when both abstain), 0 when an answerable question was
   * abstained on, and -1 when the prediction answered and got it wrong
   * (including an answer to an unanswerable question).
   */
  function Score(gold: Answer, pred: Answer): (r: int)
    ensures r == 1 <==> gold == pred
    ensures r == 0 <==> gold != Skip && pred == Skip
    ensures r == -1 <==> pred != Skip && gold != pred
  {
    if gold != Skip && gold == pred then 1
    else if gold != Skip && pred == Skip then 0
    else if gold != Skip && gold != pred then -1
    else if gold == Skip && pred != Skip then -1
    else 1
  }

  /** The five cases cover every pair, so the score is one of -1, 0, 1. */
  lemma ScoreRange(gold: Answer, pred: Answer)
    ensures -1 <= Score(gold, pred) <= 1
  {
    if gold == pred {
    } else if pred == Skip {
      assert gold != Skip;
    } else {
      assert Score(gold, pred) == -1;
    }
  }

  predicate IsScore(s: int) { -1 <= s <= 1 }

  predicate AllScores(scores: seq<int>) {
    forall i | 0 <= i < |scores| :: IsScore(scores[i])
  }

  /** One entry of `[score*penalty if score == -1 else score for score in scores]`. */
  function Charge(score: int, penalty: int): int {
    if score == -1 then score * penalty else score
  }

  /** The sum of the charged scores. */
  function ChargedSum(scores: seq<int>, penalty: int): int
    decreases |scores|
  {
    if |scores| == 0 then 0 else Charge(scores[0], penalty) + ChargedSum(scores[1..], penalty)
  }

  /**
   * `np.mean([score*penalty if score == -1 else score for score in scores])`,
   * computed exactly. The mean of an empty list is numpy's `nan`, modelled as `None`.
   */
  function Penalize(scores: seq<int>, penalty: int): (r: Option<real>)
    ensures r.None? <==> |scores| == 0
  {
    if |scores| == 0 then None
    else Some((ChargedSum(scores, penalty) as real) / (|scores| as real))
  }

  lemma {:induction false} ChargedSumBounds(scores: seq<int>, penalty: int)
    requires AllScores(scores) && penalty >= 0
    ensures -penalty * |scores| <= ChargedSum(scores, penalty) <= |scores|
    decreases |scores|
  {
    if |scores| > 0 {
      ChargedSumBounds(scores[1..], penalty);
    }
  }

  lemma {:induction false} ChargedSumAntitone(scores: seq<int>, p: int, q: int)
    requires p <= q
    ensures ChargedSum(scores, q) <= ChargedSum(scores, p)
    decreases |scores|
  {
    if |scores| > 0 {
      ChargedSumAntitone(scores[1..], p, q);
    }
  }

  lemma DivideBounds(a: int, lo: int, hi: int, n: int)
    requires n > 0 && lo * n <= a <= hi * n
    ensures lo as real <= (a as real) / (n as real) <= hi as real
  {
    assert (lo * n) as real == (lo as real) * (n as real);
    assert (hi * n) as real == (hi as real) * (n as real);
  }

  lemma DivideMonotone(a: int, b: int, n: int)
    requires n > 0 && a <= b
    ensures (a as real) / (n as real) <= (b as real) / (n as real)
  {
  }

  /** With a penalty `p >= 0` the penalised mean lies in `[-p, 1]`; with `p == 0` it is not negative. */
  lemma PenalizeBounds(scores: seq<int>, penalty: int)
    requires AllScores(scores) && |scores| > 0 && penalty >= 0
    ensures -(penalty as real) <= Penalize(scores, penalty).value <= 1.0
  {
    ChargedSumBounds(scores, penalty);
    DivideBounds(ChargedSum(scores, penalty), -penalty, 1, |scores|);
  }

  /** A heavier penalty never raises the mean. */
  lemma PenalizeAntitone(scores: seq<int>, p: int, q: int)
    requires |scores| > 0 && p <= q
    ensures Penalize(scores, q).value <= Penalize(scores, p).value
  {
    ChargedSumAntitone(scores, p, q);
    DivideMonotone(ChargedSum(scores, q), ChargedSum(scores, p), |scores|);
  }

  lemma {:induction false} ChargedSumRemove(s: seq<int>, j: nat, penalty: int)
    requires j < |s|
    ensures ChargedSum(s, penalty) == Charge(s[j], penalty) + ChargedSum(s[..j] + s[j + 1..], penalty)
    decreases |s|
  {
    if j > 0 {
      assert (s[..j] + s[j + 1..])[1..] == s[1..][..j - 1] + s[1..][j..];
      ChargedSumRemove(s[1..], j - 1, penalty);
    } else {
      assert s[..0] + s[1..] == s[1..];
    }
  }

  lemma MultisetWithout(s: seq<int>, j: nat)
    requires j < |s|
    ensures multiset(s[..j] + s[j + 1..]) == multiset(s) - multiset{s[j]}
  {
    assert s == s[..j] + [s[j]] + s[j + 1..];
  }

  /** Taking the head of `a` out of its permutation `b` leaves permutations. */
  lemma MatchHead(a: seq<int>, b: seq<int>) returns (j: nat)
    requires multiset(a) == multiset(b) && |a| > 0
    ensures j < |b| && b[j] == a[0]
    ensures multiset(a[1..]) == multiset(b[..j] + b[j + 1..])
  {
    assert a[0] in multiset(b);
    j :| 0 <= j < |b| && b[j] == a[0];
    MultisetWithout(b, j);
    assert a == [a[0]] + a[1..];
    assert multiset(a[1..]) == multiset(a) - multiset{a[0]};
  }

  lemma {:induction false} ChargedSumOfPermutation(a: seq<int>, b: seq<int>, penalty: int)
    requires multiset(a) == multiset(b)
    ensures ChargedSum(a, penalty) == ChargedSum(b, penalty)
    decreases |a|
  {
    if |a| == 0 {
      assert |b| == |multiset(b)| == 0;
    } else {
      var j := MatchHead(a, b);
      ChargedSumOfPermutation(a[1..], b[..j] + b[j + 1..], penalty);
      ChargedSumRemove(b, j, penalty);
    }
  }

  /** The penalised mean depends only on which scores there are, not on their order. */
  lemma PenalizeIgnoresOrder(a: seq<int>, b: seq<int>, penalty: int)
    requires multiset(a) == multiset(b)
    ensures Penalize(a, penalty) == Penalize(b, penalty)
  {
    assert |a| == |multiset(a)| == |multiset(b)| == |b|;
    ChargedSumOfPermutation(a, b, penalty);
  }
}
