/**
 * The all-abstain baseline submission: it answers every sample with the
 * skip indicator, so the scorer never charges it a penalty.
 */
module DummyModel {
  import opened Dicts
  import opened Outcomes
  import ScoringUtils

  /** One input sample: its identifier and its question. */
  datatype Sample = Sample(id: string, input: string)

  /** The identifiers of `samples`, as a set. */
  function Ids(samples: seq<Sample>): (r: set<string>)
    ensures forall i | 0 <= i < |samples| :: samples[i].id in r
    ensures forall k | k in r :: exists i :: 0 <= i < |samples| && samples[i].id == k
  {
    set i | 0 <= i < |samples| :: samples[i].id
  }

  /** The distinct sample ids, each at the place of its first occurrence. */
  function FirstIds(samples: seq<Sample>): seq<string>
    decreases |samples|
  {
    if |samples| == 0 then []
    else
      var ids := FirstIds(samples[..|samples| - 1]);
      var id := samples[|samples| - 1].id;
      if id in ids then ids else ids + [id]
  }

  /** The model object. It has no fields, so one call cannot influence the next. */
  class Model {
    constructor()
    {
    }

    /**
     * `generate`: one entry per distinct sample id, each the skip indicator;
     * a repeated id keeps its first place, and no input gives an empty dictionary.
     */
    method Generate(samples: seq<Sample>) returns (labels: Dict<string>)
      ensures labels.Valid()
      ensures KeySet(labels) == Ids(samples)
      ensures forall k | k in labels.items :: labels.items[k] == ScoringUtils.SkipIndicator
      ensures |labels.keys| <= |samples|
      ensures |samples| == 0 ==> labels.keys == []
      ensures labels.keys == FirstIds(samples)
    {
      labels := Empty();
      var i := 0;
      while i < |samples|
        invariant 0 <= i <= |samples|
        invariant AbstainsOn(labels, samples[..i])
      {
        assert samples[..i + 1] == samples[..i] + [samples[i]];
        AbstainStep(labels, samples[..i], samples[i]);
        labels := labels.Put(samples[i].id, ScoringUtils.SkipIndicator);
        i := i + 1;
      }
      assert samples[..i] == samples;
    }
  }

  /** `labels` is what `generate` has built after the samples `done`. */
  predicate AbstainsOn(labels: Dict<string>, done: seq<Sample>) {
    && labels.Valid()
    && |labels.keys| <= |done|
    && KeySet(labels) == Ids(done)
    && (forall k | k in labels.items :: labels.items[k] == ScoringUtils.SkipIndicator)
    && labels.keys == FirstIds(done)
  }

  /** One pass of the loop in `generate`. */
  lemma AbstainStep(labels: Dict<string>, done: seq<Sample>, s: Sample)
    requires AbstainsOn(labels, done)
    ensures AbstainsOn(labels.Put(s.id, ScoringUtils.SkipIndicator), done + [s])
  {
    var r := labels.Put(s.id, ScoringUtils.SkipIndicator);
    assert r.items == labels.items[s.id := ScoringUtils.SkipIndicator];
    assert KeySet(r) == KeySet(labels) + {s.id};
    IdsSnoc(done, s);
    assert s.id in labels.keys <==> s.id in labels.items;
    FirstIdsSnoc(done, s);
  }

  lemma FirstIdsSnoc(samples: seq<Sample>, s: Sample)
    ensures FirstIds(samples + [s]) == if s.id in FirstIds(samples) then FirstIds(samples) else FirstIds(samples) + [s.id]
  {
    assert (samples + [s])[..|samples|] == samples;
  }

  lemma IdsSnoc(samples: seq<Sample>, s: Sample)
    ensures Ids(samples + [s]) == Ids(samples) + {s.id}
  {
    var all := samples + [s];
    forall k | k in Ids(all) ensures k in Ids(samples) + {s.id} {
      var i :| 0 <= i < |all| && all[i].id == k;
      if i < |samples| { assert samples[i] == all[i]; }
    }
    forall k | k in Ids(samples) ensures k in Ids(all) {
      var i :| 0 <= i < |samples| && samples[i].id == k;
      assert all[i] == samples[i];
    }
    assert all[|samples|] == s;
  }

  /**
   * Scored against any gold query, the abstention is worth 0 or 1: 1 when
   * the gold query is itself the skip indicator, 0 otherwise.
   */
  lemma AbstentionNeverPenalized(key: string, goldSql: string, db: ScoringUtils.Database)
    ensures var gold := ScoringUtils.ExecuteSqlWrapper(key, goldSql, db, "real").1;
      var pred := ScoringUtils.ExecuteSqlWrapper(key, ScoringUtils.SkipIndicator, db, "pred").1;
      && (Score(gold, pred) == 1 <==> goldSql == ScoringUtils.SkipIndicator)
      && (Score(gold, pred) == 0 <==> goldSql != ScoringUtils.SkipIndicator)
  {
  }
}
