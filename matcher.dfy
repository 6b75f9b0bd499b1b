/** The identity matcher (`get_predict_name`): a linear scan of the gallery in insertion
    order for the most similar entry, then an "unknown" threshold. The similarity measure
    is a parameter; the source uses the cosine of the angle between embeddings. */
module Matcher {
  import opened Prelude
  import opened Gallery

  /** Best scores below this are reported as unknown. */
  const Threshold: real := 0.4

  /** The starting best score of the scan, below every cosine similarity. */
  const Sentinel: real := -10.0

  const Unknown: string := "unknown"

  /** The predicted name (a gallery key or "unknown") and the best score: what the source
      formats as `name + ' %.4f' % score`. */
  datatype Match = Match(name: string, score: real)

  /** The similarity of the query to each gallery entry, in the gallery's key order. */
  function Scores(keys: seq<string>, features: map<string, Embedding>, query: Embedding,
                  sim: (Embedding, Embedding) -> real): (s: seq<real>)
    requires forall k :: k in keys ==> k in features
    ensures |s| == |keys|
    ensures forall i :: 0 <= i < |keys| ==> s[i] == sim(query, features[keys[i]])
  {
    seq(|keys|, i requires 0 <= i < |keys| => sim(query, features[keys[i]]))
  }

  /** Entry k is the one the scan keeps: above the sentinel, strictly above every entry
      before it and at least as high as every entry after it. */
  predicate IsLeader(scores: seq<real>, k: int) {
    0 <= k < |scores| &&
    scores[k] > Sentinel &&
    (forall i :: 0 <= i < k ==> scores[i] < scores[k]) &&
    (forall i :: k < i < |scores| ==> scores[i] <= scores[k])
  }

  /** The index of the entry the scan keeps, if any: the last entry replaces the choice
      among the earlier ones when it is strictly higher (the earlier best starting at the
      sentinel). */
  function Leader(scores: seq<real>): (k: Option<nat>)
    ensures k.Some? ==> k.value < |scores|
    decreases |scores|
  {
    if scores == [] then None
    else
      var k := Leader(scores[..|scores| - 1]);
      var best := if k.None? then Sentinel else scores[k.value];
      if scores[|scores| - 1] > best then Some(|scores| - 1) else k
  }

  /** The scan keeps an entry exactly when some score is above the sentinel, and then the
      first of the highest ones. */
  lemma {:induction false} LeaderSelects(scores: seq<real>)
    ensures Leader(scores).None? <==> forall i :: 0 <= i < |scores| ==> scores[i] <= Sentinel
    ensures Leader(scores).Some? ==> IsLeader(scores, Leader(scores).value)
    decreases |scores|
  {
    if scores != [] {
      var init := scores[..|scores| - 1];
      assert forall i :: 0 <= i < |init| ==> init[i] == scores[i];
      LeaderSelects(init);
    }
  }

  /** One more step of the scan, on the prefix of length i + 1. */
  lemma LeaderStep(scores: seq<real>, i: nat)
    requires i < |scores|
    ensures var k := Leader(scores[..i]);
            var best := if k.None? then Sentinel else scores[k.value];
            Leader(scores[..i + 1]) == if scores[i] > best then Some(i) else k
  {
    assert scores[..i + 1][..i] == scores[..i];
  }

  lemma LeaderUnique(scores: seq<real>, k: int, j: int)
    requires IsLeader(scores, k) && IsLeader(scores, j)
    ensures k == j
  {
  }

  /** The result of get_predict_name for a gallery with these keys and scores. */
  function Predict(keys: seq<string>, scores: seq<real>): Match
    requires |keys| == |scores|
  {
    match Leader(scores)
    case None => Match(Unknown, Sentinel)
    case Some(k) => Match(if scores[k] < Threshold then Unknown else keys[k], scores[k])
  }

  /** The reported score is the highest score (or the sentinel when nothing beats it); a
      score under the threshold is reported as unknown, and otherwise the name is the key
      of the first entry with the highest score. */
  lemma PredictMeaning(keys: seq<string>, scores: seq<real>)
    requires |keys| == |scores|
    ensures Predict(keys, scores).score >= Sentinel
    ensures forall i :: 0 <= i < |scores| ==> scores[i] <= Predict(keys, scores).score
    ensures Predict(keys, scores).score == Sentinel ||
            exists k :: IsLeader(scores, k) && Predict(keys, scores).score == scores[k]
    ensures Predict(keys, scores).score < Threshold ==> Predict(keys, scores).name == Unknown
    ensures Predict(keys, scores).score >= Threshold ==>
            exists k :: IsLeader(scores, k) && Predict(keys, scores).name == keys[k]
  {
    LeaderSelects(scores);
  }

  /** An empty gallery gives "unknown" with the sentinel score. */
  lemma PredictEmpty()
    ensures Predict([], []) == Match(Unknown, Sentinel)
  {
  }

  /** Appending an entry that scores no higher than the current best changes nothing:
      the first entry seen keeps a tie. */
  lemma PredictAppendNotHigher(keys: seq<string>, scores: seq<real>, key: string, s: real)
    requires |keys| == |scores|
    requires s <= Predict(keys, scores).score
    ensures Predict(keys + [key], scores + [s]) == Predict(keys, scores)
  {
    assert (scores + [s])[..|scores|] == scores;
    var k := Leader(scores);
    if k.Some? {
      assert (keys + [key])[k.value] == keys[k.value];
    }
  }

  /** Appending an entry that scores strictly higher makes it the answer. */
  lemma PredictAppendHigher(keys: seq<string>, scores: seq<real>, key: string, s: real)
    requires |keys| == |scores|
    requires s > Predict(keys, scores).score
    ensures Predict(keys + [key], scores + [s]) == Match(if s < Threshold then Unknown else key, s)
  {
    assert (scores + [s])[..|scores|] == scores;
  }

  /** A gallery entry identical to the query scores 1, the largest cosine similarity; the
      answer is then that score and the first key reaching it. */
  lemma PredictPerfectMatch(keys: seq<string>, scores: seq<real>, j: int)
    requires |keys| == |scores| && 0 <= j < |scores| && scores[j] == 1.0
    requires forall i :: 0 <= i < |scores| ==> scores[i] <= 1.0
    ensures Predict(keys, scores).score == 1.0
    ensures exists i :: 0 <= i <= j && scores[i] == 1.0 && Predict(keys, scores).name == keys[i] &&
                        forall i' :: 0 <= i' < i ==> scores[i'] < 1.0
  {
    LeaderSelects(scores);
  }

  /** A best score of 0.35 is reported as unknown, with that score. */
  lemma ExampleBelowThreshold()
    ensures Predict(["A", "B"], [0.35, 0.10]) == Match(Unknown, 0.35)
  {
    assert [0.35, 0.10][..1] == [0.35];
    assert [0.35][..0] == [];
  }

  /** A best score of 0.8 names its entry. */
  lemma ExampleAboveThreshold()
    ensures Predict(["A", "B"], [0.6, 0.8]) == Match("B", 0.8)
  {
    assert [0.6, 0.8][..1] == [0.6];
    assert [0.6][..0] == [];
  }

  /** get_predict_name: scan the gallery keeping the first highest similarity, then apply
      the threshold. */
  method PredictName(g: Gallery, query: Embedding, sim: (Embedding, Embedding) -> real)
    returns (name: string, score: real)
    requires g.Valid()
    ensures Match(name, score) == Predict(g.keys, Scores(g.keys, g.features, query, sim))
  {
    var keys, features := g.keys, g.features;
    ghost var scores := Scores(keys, features, query, sim);
    var best := Sentinel;
    var leader: Option<string> := None;
    for i := 0 to |keys|
      invariant leader.None? <==> Leader(scores[..i]).None?
      invariant leader.Some? ==> leader.value == keys[Leader(scores[..i]).value]
      invariant best == if leader.None? then Sentinel else scores[Leader(scores[..i]).value]
    {
      LeaderStep(scores, i);
      var s := sim(query, features[keys[i]]);
      if s > best {
        best := s;
        leader := Some(keys[i]);
      }
    }
    assert scores[..|keys|] == scores;
    score := best;
    if best < Threshold {
      name := Unknown;
    } else {
      name := leader.value;
    }
  }
}
