/**
 * Similarity decisions of the recognizer: the threshold test of
 * `compare_faces`, the duplicate search of `check_face_similarity` and the
 * per-identity effective score that `recognize_face` computes.
 */
module Similarity {
  import opened Wrappers
  import opened Features
  import opened FaceTable

  /** Default threshold of `compare_faces`, the primary match threshold of recognition. */
  const MatchThreshold: real := 0.6

  /** Default threshold of `check_face_similarity`, used when registering. */
  const DuplicateThreshold: real := 0.85

  /** A primary similarity below this makes recognition also try the individual vectors. */
  const StrongThreshold: real := 0.8

  /** Match threshold applied when the individual vectors were consulted. */
  const IndividualThreshold: real := 0.75

  /** The pair `(is_similar, similarity)` returned by `compare_faces`. */
  datatype Comparison = Comparison(isMatch: bool, similarity: real)

  /** `compare_faces`: the score of the two vectors and whether it is strictly above the threshold. */
  function CompareFaces(a: FeatureVector, b: FeatureVector, score: Score, threshold: real): (c: Comparison)
    ensures c.similarity == score(a, b)
    ensures c.isMatch <==> score(a, b) > threshold
  {
    var similarity := score(a, b);
    Comparison(similarity > threshold, similarity)
  }

  /** Some vector of `fs` scores strictly above the threshold against the probe. */
  predicate AnyAbove(probe: FeatureVector, fs: seq<FeatureVector>, score: Score, threshold: real) {
    exists i :: 0 <= i < |fs| && score(probe, fs[i]) > threshold
  }

  /**
   * A record is similar to the probe when its primary vector, or any of its
   * individual vectors if it has them, scores strictly above the threshold:
   * equivalently, the best of those scores is above the threshold.
   */
  predicate Qualifies(probe: FeatureVector, rec: FaceRecord, score: Score, threshold: real): (q: bool)
    ensures rec.allFeatures.None? ==> (q <==> score(probe, rec.features) > threshold)
    ensures rec.allFeatures.Some? ==>
      (q <==> MaxScore(probe, rec.allFeatures.value, score, score(probe, rec.features)) > threshold)
  {
    || CompareFaces(probe, rec.features, score, threshold).isMatch
    || (rec.allFeatures.Some? && AnyAbove(probe, rec.allFeatures.value, score, threshold))
  }

  /**
   * `check_face_similarity`: the name of the first entry, in table order, that
   * is similar to the probe; `None` exactly when no entry is.
   */
  function FindSimilar(probe: FeatureVector, t: Table, score: Score, threshold: real): (r: Option<string>)
    ensures r.None? <==> forall k :: 0 <= k < |t| ==> !Qualifies(probe, t[k].record, score, threshold)
    ensures r.Some? ==>
      exists k :: 0 <= k < |t| && t[k].name == r.value && Qualifies(probe, t[k].record, score, threshold)
        && forall j :: 0 <= j < k ==> !Qualifies(probe, t[j].record, score, threshold)
    decreases |t|
  {
    if |t| == 0 then None
    else if Qualifies(probe, t[0].record, score, threshold) then Some(t[0].name)
    else
      var r := FindSimilar(probe, t[1..], score, threshold);
      assert forall k :: 1 <= k < |t| ==> t[1..][k - 1] == t[k];
      r
  }

  function Max(a: real, b: real): real {
    if a >= b then a else b
  }

  /**
   * The running `max(best, individual_similarity)` over the vectors `fs`,
   * starting from `init`: it is at least `init` and every score, and it is
   * `init` or one of the scores.
   */
  function MaxScore(probe: FeatureVector, fs: seq<FeatureVector>, score: Score, init: real): (m: real)
    ensures m >= init
    ensures forall i :: 0 <= i < |fs| ==> m >= score(probe, fs[i])
    ensures m == init || exists i :: 0 <= i < |fs| && m == score(probe, fs[i])
    decreases |fs|
  {
    if |fs| == 0 then init
    else
      var prefix := fs[..|fs| - 1];
      var m := Max(MaxScore(probe, prefix, score, init), score(probe, fs[|fs| - 1]));
      assert forall i :: 0 <= i < |fs| - 1 ==> prefix[i] == fs[i];
      m
  }

  /**
   * The effective score and verdict of one identity in `recognize_face`. With
   * no individual vectors, or a primary similarity of at least 0.8, it is the
   * primary comparison at threshold 0.6; otherwise the score is the maximum of
   * the primary and all individual similarities, and it matches above 0.75.
   */
  function Effective(probe: FeatureVector, rec: FaceRecord, score: Score): (v: Comparison)
    ensures var primary := score(probe, rec.features);
      (rec.allFeatures.None? || primary >= StrongThreshold) ==>
        v.similarity == primary && (v.isMatch <==> primary > MatchThreshold)
    ensures var primary := score(probe, rec.features);
      (rec.allFeatures.Some? && primary < StrongThreshold) ==>
        var fs := rec.allFeatures.value;
        && v.similarity >= primary
        && (forall i :: 0 <= i < |fs| ==> v.similarity >= score(probe, fs[i]))
        && (v.similarity == primary || exists i :: 0 <= i < |fs| && v.similarity == score(probe, fs[i]))
        && (v.isMatch <==> v.similarity > IndividualThreshold)
  {
    var primary := CompareFaces(probe, rec.features, score, MatchThreshold);
    if rec.allFeatures.Some? && primary.similarity < StrongThreshold then
      var best := MaxScore(probe, rec.allFeatures.value, score, primary.similarity);
      Comparison(best > IndividualThreshold, best)
    else
      primary
  }

  /**
   * For a record that has individual vectors (every record `register_face`
   * writes), the three thresholds collapse into one: it matches exactly when
   * its effective score is above 0.75.
   */
  lemma EffectiveMatchAboveIndividual(probe: FeatureVector, rec: FaceRecord, score: Score)
    requires rec.allFeatures.Some?
    ensures Effective(probe, rec, score).isMatch <==> Effective(probe, rec, score).similarity > IndividualThreshold
  {
  }
}
