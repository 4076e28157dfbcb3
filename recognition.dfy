/**
 * The per-face decision of `recognize_face`: the loop over the table that
 * keeps `best_similarity` and `best_match`, and the result it reports. The
 * method that runs it over every detected face is
 * `Recognizer.SimpleFaceRecognizer.Recognize`.
 */
module Recognition {
  import opened Wrappers
  import opened Features
  import opened FaceTable
  import opened Similarity

  /** The loop variables `(best_similarity, best_match)`. */
  datatype Best = Best(similarity: real, matched: Option<string>)

  /** Their values before the first identity: `0` and `None`. */
  const Start: Best := Best(0.0, None)

  /** The name reported for a face without an accepted match. */
  const UnknownName: string := "Unknown"

  /**
   * One loop round for an identity with effective comparison `v`: only a
   * strictly higher score replaces `best_similarity`, and the name is taken
   * only if that identity also matches.
   */
  function Step(b: Best, name: string, v: Comparison): (r: Best)
    ensures r.similarity >= b.similarity && r.similarity >= v.similarity
    ensures r.similarity == b.similarity || r.similarity == v.similarity
    ensures r.matched != b.matched ==> v.isMatch && v.similarity > b.similarity && r.matched == Some(name)
    ensures v.isMatch && v.similarity > b.similarity ==> r.matched == Some(name)
  {
    if v.similarity > b.similarity then
      Best(v.similarity, if v.isMatch then Some(name) else b.matched)
    else b
  }

  /**
   * The loop state after the identities of `t`, in table order. The best
   * similarity is never negative, and a match is only ever held together with
   * a similarity above the primary threshold 0.6.
   */
  function Scan(probe: FeatureVector, t: Table, score: Score): (r: Best)
    ensures r.similarity >= 0.0
    ensures r.matched.Some? ==> r.similarity > MatchThreshold
    decreases |t|
  {
    if |t| == 0 then Start
    else
      var last := t[|t| - 1];
      Step(Scan(probe, t[..|t| - 1], score), last.name, Effective(probe, last.record, score))
  }

  /** One element of the result list: `{name, confidence, coordinates}`. */
  datatype FaceResult = FaceResult(name: string, similarity: real, coordinates: Box)

  /** The result for a face at `box` once the loop ended in state `b` (`best_match or 'Unknown'`). */
  function Report(box: Box, b: Best): (r: FaceResult)
    ensures r.coordinates == box && r.similarity == b.similarity
    ensures r.name != ""
    ensures b.matched.None? ==> r.name == UnknownName
    ensures r.name != UnknownName ==> b.matched == Some(r.name)
    ensures IsTruthy(b.matched) ==> r.name == b.matched.value
  {
    FaceResult(if IsTruthy(b.matched) then b.matched.value else UnknownName, b.similarity, box)
  }

  /**
   * Identity `k` takes over `best_match` when it is examined: it matches and
   * its effective score is strictly above the best similarity so far.
   */
  predicate Wins(probe: FeatureVector, t: Table, k: nat, score: Score)
    requires k < |t|
  {
    var v := Effective(probe, t[k].record, score);
    v.isMatch && v.similarity > Scan(probe, t[..k], score).similarity
  }

  /** The table minus its last entry agrees with the table on every shorter prefix. */
  lemma PrefixOfPrefix(t: Table, k: nat)
    requires k < |t|
    ensures t[..|t| - 1][..k] == t[..k]
  {
  }

  /**
   * `best_similarity` ends as the maximum of 0 and every identity's effective
   * score.
   */
  lemma {:induction false} ScanIsMaximum(probe: FeatureVector, t: Table, score: Score)
    ensures Scan(probe, t, score).similarity >= 0.0
    ensures forall k :: 0 <= k < |t| ==>
      Scan(probe, t, score).similarity >= Effective(probe, t[k].record, score).similarity
    ensures Scan(probe, t, score).similarity == 0.0 ||
      exists k :: 0 <= k < |t| && Scan(probe, t, score).similarity == Effective(probe, t[k].record, score).similarity
  {
    if |t| > 0 {
      var u := t[..|t| - 1];
      ScanIsMaximum(probe, u, score);
      assert forall k :: 0 <= k < |u| ==> u[k] == t[k];
    }
  }

  /** `best_similarity` never decreases as the loop advances. */
  lemma {:induction false} ScanMonotone(probe: FeatureVector, t: Table, i: nat, score: Score)
    requires i <= |t|
    ensures Scan(probe, t[..i], score).similarity <= Scan(probe, t, score).similarity
  {
    if i < |t| {
      var u := t[..|t| - 1];
      ScanMonotone(probe, u, i, score);
      assert u[..i] == t[..i];
    } else {
      assert t[..i] == t;
    }
  }

  /** Winning is decided by the prefix before an identity, so dropping later entries does not change it. */
  lemma WinsOnPrefix(probe: FeatureVector, t: Table, k: nat, score: Score)
    requires k < |t| - 1
    ensures Wins(probe, t, k, score) <==> Wins(probe, t[..|t| - 1], k, score)
  {
    PrefixOfPrefix(t, k);
  }

  /** The last round sets `best_match` to its identity if it wins and leaves it alone otherwise. */
  lemma LastRound(probe: FeatureVector, t: Table, score: Score)
    requires |t| > 0
    ensures Scan(probe, t, score).matched ==
      if Wins(probe, t, |t| - 1, score) then Some(t[|t| - 1].name) else Scan(probe, t[..|t| - 1], score).matched
  {
  }

  /** `best_match` stays `None` exactly when no identity wins. */
  lemma {:induction false} ScanNoneIffNoWinner(probe: FeatureVector, t: Table, score: Score)
    ensures Scan(probe, t, score).matched.None? <==> forall k :: 0 <= k < |t| ==> !Wins(probe, t, k, score)
  {
    if |t| > 0 {
      var n := |t|;
      var u := t[..n - 1];
      ScanNoneIffNoWinner(probe, u, score);
      LastRound(probe, t, score);
      if !Wins(probe, t, n - 1, score) {
        forall k | 0 <= k < n - 1 ensures Wins(probe, t, k, score) <==> Wins(probe, u, k, score) {
          WinsOnPrefix(probe, t, k, score);
        }
      }
    }
  }

  /** When identity `k` wins and no later identity does, `best_match` is `k`'s name. */
  lemma {:induction false} ScanLastWinner(probe: FeatureVector, t: Table, k: nat, score: Score)
    requires k < |t| && Wins(probe, t, k, score)
    requires forall j :: k < j < |t| ==> !Wins(probe, t, j, score)
    ensures Scan(probe, t, score).matched == Some(t[k].name)
  {
    var n := |t|;
    LastRound(probe, t, score);
    if k < n - 1 {
      var u := t[..n - 1];
      WinsOnPrefix(probe, t, k, score);
      forall j | k < j < n - 1 ensures !Wins(probe, u, j, score) {
        WinsOnPrefix(probe, t, j, score);
      }
      ScanLastWinner(probe, u, k, score);
    }
  }

  /** Every record holds individual vectors, as every record `register_face` writes does. */
  predicate AllHaveIndividual(t: Table) {
    forall e :: e in t ==> e.record.allFeatures.Some?
  }

  /**
   * On a table written by `register_face`, recognition picks the first identity
   * with the highest effective score, and accepts it exactly when that score is
   * above 0.75.
   */
  lemma {:induction false} ScanPicksFirstBest(probe: FeatureVector, t: Table, score: Score)
    requires AllHaveIndividual(t)
    ensures Scan(probe, t, score).matched.Some? <==> Scan(probe, t, score).similarity > IndividualThreshold
    ensures Scan(probe, t, score).matched.Some? ==>
      var best := Scan(probe, t, score).similarity;
      exists k :: 0 <= k < |t| && t[k].name == Scan(probe, t, score).matched.value
        && Effective(probe, t[k].record, score).similarity == best
        && forall j :: 0 <= j < k ==> Effective(probe, t[j].record, score).similarity < best
  {
    if |t| > 0 {
      var n := |t|;
      var u := t[..n - 1];
      assert forall k :: 0 <= k < |u| ==> u[k] == t[k];
      assert AllHaveIndividual(u) by {
        forall e | e in u ensures e.record.allFeatures.Some? {
          var i :| 0 <= i < |u| && u[i] == e;
          assert e == t[i] && t[i] in t;
        }
      }
      ScanPicksFirstBest(probe, u, score);
      ScanIsMaximum(probe, u, score);
      assert t[n - 1] in t;
      EffectiveMatchAboveIndividual(probe, t[n - 1].record, score);
    }
  }

  /** A reported match is always the name of an identity in the table. */
  lemma {:induction false} ScanMatchIsRegistered(probe: FeatureVector, t: Table, score: Score)
    ensures Scan(probe, t, score).matched.Some? ==> HasName(t, Scan(probe, t, score).matched.value)
  {
    if |t| > 0 {
      var u := t[..|t| - 1];
      ScanMatchIsRegistered(probe, u, score);
      if Scan(probe, u, score).matched.Some? {
        var e :| e in u && e.name == Scan(probe, u, score).matched.value;
        var i :| 0 <= i < |u| && u[i] == e;
        assert t[i] == e;
      }
      assert t[|t| - 1] in t;
    }
  }

  /** After a name is deleted, no face is ever recognized as that name. */
  lemma DeletedNameNotRecognized(probe: FeatureVector, t: Table, name: string, score: Score)
    ensures Scan(probe, Remove(t, name), score).matched != Some(name)
  {
    ScanMatchIsRegistered(probe, Remove(t, name), score);
  }

  /** With no identity scoring above 0.6 (nor above 0.75 where individual vectors count), the face is Unknown. */
  lemma NoMatchIsUnknown(probe: FeatureVector, t: Table, score: Score, box: Box)
    requires forall k :: 0 <= k < |t| ==> !Effective(probe, t[k].record, score).isMatch
    ensures Report(box, Scan(probe, t, score)).name == UnknownName
  {
    ScanNoneIffNoWinner(probe, t, score);
  }

  /**
   * The face is reported under the name of the last identity that took over
   * `best_match`, when that name is non-empty (`best_match or 'Unknown'`).
   */
  lemma ReportsLastWinner(probe: FeatureVector, t: Table, k: nat, score: Score, box: Box)
    requires k < |t| && Wins(probe, t, k, score) && t[k].name != ""
    requires forall j :: k < j < |t| ==> !Wins(probe, t, j, score)
    ensures Report(box, Scan(probe, t, score)).name == t[k].name
  {
    ScanLastWinner(probe, t, k, score);
  }
}
