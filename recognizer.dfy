/**
 * `SimpleFaceRecognizer`: the table of known faces and the operations that
 * read and change it in place.
 *
 * The data file is represented by the ghost field `saved`, the table as last
 * written by `save_known_faces`; reading it at start-up is the constructor's
 * argument.
 */
module Recognizer {
  import opened Wrappers
  import opened Features
  import opened FaceTable
  import opened Similarity
  import opened Enrollment
  import opened Recognition

  /** The message `recognize_face` returns beside its results. */
  datatype RecognizeStatus = NoFaceDetected | RecognitionCompleted

  /** The outcome of the delete request: deleted, or "Face not found". */
  datatype DeleteOutcome = Deleted | FaceNotFound

  class SimpleFaceRecognizer {
    /** `known_faces`, in insertion order. */
    var knownFaces: Table
    /** The table as last written to the data file. */
    ghost var saved: Table

    /** Names in the table are unique, as dictionary keys are. */
    ghost predicate Valid()
      reads this
    {
      DistinctNames(knownFaces)
    }

    /** Start with the table read from the data file (empty when there is none). */
    constructor (loaded: Table)
      requires DistinctNames(loaded)
      ensures Valid()
      ensures knownFaces == loaded && saved == loaded
    {
      knownFaces := loaded;
      saved := loaded;
    }

    /**
     * `register_face(images, name)`: the outcome `Enroll` decides; on success
     * the new record is appended under `name` and the table is saved, on
     * failure nothing changes.
     */
    method Register(images: seq<Image>, name: string, now: string,
                    detect: Detector, extract: Extractor, score: Score) returns (outcome: Result<nat, RegisterError>)
      requires Valid()
      modifies this
      ensures Valid()
      ensures var e := Enroll(old(knownFaces), images, name, now, detect, extract, score);
        && (e.Success? ==>
              && outcome == Success(RequiredImages)
              && knownFaces == old(knownFaces) + [Entry(name, e.value)]
              && saved == knownFaces)
        && (e.Failure? ==>
              && outcome == Failure(e.error)
              && knownFaces == old(knownFaces)
              && saved == old(saved))
      ensures NamesNonEmpty(old(knownFaces)) && name != "" ==> NamesNonEmpty(knownFaces)
    {
      if |images| != RequiredImages {
        return Failure(WrongImageCount);
      }
      if HasName(knownFaces, name) {
        return Failure(NameTaken(name));
      }
      var allFeatures: seq<FeatureVector> := [];
      var i := 0;
      while i < |images|
        invariant 0 <= i <= |images|
        invariant |allFeatures| == i
        invariant forall j :: 0 <= j < i ==> ShotCheck(knownFaces, images[j], j, detect, extract, score).None?
        invariant forall j :: 0 <= j < i ==>
          |detect(images[j])| == 1 && allFeatures[j] == extract(images[j], detect(images[j])[0])
      {
        var faces := detect(images[i]);
        if |faces| == 0 {
          FirstFailingImageDecides(knownFaces, images, name, now, detect, extract, score, i);
          return Failure(NoFace(i + 1));
        }
        if |faces| > 1 {
          FirstFailingImageDecides(knownFaces, images, name, now, detect, extract, score, i);
          return Failure(MultipleFaces(i + 1));
        }
        var features := extract(images[i], faces[0]);
        var duplicate := FindSimilar(features, knownFaces, score, DuplicateThreshold);
        if IsTruthy(duplicate) {
          FirstFailingImageDecides(knownFaces, images, name, now, detect, extract, score, i);
          return Failure(DuplicateFace(duplicate.value));
        }
        allFeatures := allFeatures + [features];
        i := i + 1;
      }
      assert allFeatures == Extracted(images, detect, extract);
      var record := FaceRecord(Mean(allFeatures), Some(allFeatures), now, |images|);
      AddKeepsDistinct(knownFaces, Entry(name, record));
      knownFaces := knownFaces + [Entry(name, record)];
      saved := knownFaces;
      return Success(|images|);
    }

    /**
     * `recognize_face(image)`: no results when no face is detected; otherwise
     * one result per detected face, in detection order, each the outcome of
     * the loop over the table for that face's features.
     */
    method Recognize(image: Image, detect: Detector, extract: Extractor, score: Score)
      returns (results: seq<FaceResult>, status: RecognizeStatus)
      ensures status == NoFaceDetected <==> |detect(image)| == 0
      ensures |results| == |detect(image)|
      ensures forall i :: 0 <= i < |results| ==>
        results[i] == Report(detect(image)[i], Scan(extract(image, detect(image)[i]), knownFaces, score))
    {
      var faces := detect(image);
      if |faces| == 0 {
        return [], NoFaceDetected;
      }
      results := [];
      var i := 0;
      while i < |faces|
        invariant 0 <= i <= |faces|
        invariant |results| == i
        invariant forall j :: 0 <= j < i ==>
          results[j] == Report(faces[j], Scan(extract(image, faces[j]), knownFaces, score))
      {
        var features := extract(image, faces[i]);
        var bestMatch: Option<string> := None;
        var bestSimilarity: real := 0.0;
        var k := 0;
        while k < |knownFaces|
          invariant 0 <= k <= |knownFaces|
          invariant Best(bestSimilarity, bestMatch) == Scan(features, knownFaces[..k], score)
        {
          var entry := knownFaces[k];
          var v := Effective(features, entry.record, score);
          if v.similarity > bestSimilarity {
            bestSimilarity := v.similarity;
            if v.isMatch {
              bestMatch := Some(entry.name);
            }
          }
          assert knownFaces[..k + 1][..k] == knownFaces[..k];
          k := k + 1;
        }
        assert knownFaces[..k] == knownFaces;
        var name := if IsTruthy(bestMatch) then bestMatch.value else UnknownName;
        results := results + [FaceResult(name, bestSimilarity, faces[i])];
        i := i + 1;
      }
      status := RecognitionCompleted;
    }

    /**
     * The delete request for `name`: when the name is registered its entry is
     * removed and the table saved; otherwise "Face not found" and nothing
     * changes.
     */
    method Delete(name: string) returns (outcome: DeleteOutcome)
      requires Valid()
      modifies this
      ensures Valid()
      ensures outcome == if HasName(old(knownFaces), name) then Deleted else FaceNotFound
      ensures knownFaces == Remove(old(knownFaces), name)
      ensures outcome == Deleted ==> saved == knownFaces
      ensures outcome == FaceNotFound ==> saved == old(saved)
    {
      if HasName(knownFaces, name) {
        knownFaces := Remove(knownFaces, name);
        saved := knownFaces;
        return Deleted;
      }
      return FaceNotFound;
    }
  }
}
