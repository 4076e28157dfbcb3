/**
 * The decision of `register_face`: which request is rejected, with which
 * reason, and which record a successful registration builds. The method that
 * carries it out on the recognizer's table is `Recognizer.SimpleFaceRecognizer.Register`.
 */
module Enrollment {
  import opened Wrappers
  import opened Features
  import opened FaceTable
  import opened Similarity

  /** Number of images a registration needs. */
  const RequiredImages: nat := 3

  /** Why `register_face` returned `False`; image numbers are 1-based, as in its messages. */
  datatype RegisterError =
    | WrongImageCount                  // "Exactly 3 images are required"
    | NameTaken(name: string)          // "Person with name ... is already registered"
    | NoFace(image: nat)               // "No face detected in image i"
    | MultipleFaces(image: nat)        // "Multiple faces detected in image i"
    | DuplicateFace(existing: string)  // "This face appears to be already registered under the name ..."

  /** Every name in the table is non-empty (true of every name that passed request validation). */
  predicate NamesNonEmpty(t: Table) {
    forall e :: e in t ==> e.name != ""
  }

  /** The checks of loop round `i` (0-based) on one image; `None` when the image passes. */
  function ShotCheck(t: Table, image: Image, i: nat, detect: Detector, extract: Extractor, score: Score): (r: Option<RegisterError>)
    ensures r.None? <==>
      |detect(image)| == 1 && !IsTruthy(FindSimilar(extract(image, detect(image)[0]), t, score, DuplicateThreshold))
    ensures r.Some? ==>
      || (r.value == NoFace(i + 1) && |detect(image)| == 0)
      || (r.value == MultipleFaces(i + 1) && |detect(image)| > 1)
      || (r.value.DuplicateFace? && |detect(image)| == 1 && r.value.existing != ""
          && FindSimilar(extract(image, detect(image)[0]), t, score, DuplicateThreshold) == Some(r.value.existing)
          && HasName(t, r.value.existing))
  {
    var faces := detect(image);
    if |faces| == 0 then Some(NoFace(i + 1))
    else if |faces| > 1 then Some(MultipleFaces(i + 1))
    else
      var dup := FindSimilar(extract(image, faces[0]), t, score, DuplicateThreshold);
      if IsTruthy(dup) then Some(DuplicateFace(dup.value)) else None
  }

  /**
   * The images from position `i` on, checked in order: the failure of the
   * first image that fails, if there is one.
   */
  function FirstFailure(t: Table, images: seq<Image>, i: nat, detect: Detector, extract: Extractor, score: Score): (r: Option<RegisterError>)
    requires i <= |images|
    ensures r.None? <==> forall j :: i <= j < |images| ==> ShotCheck(t, images[j], j, detect, extract, score).None?
    ensures r.Some? ==>
      exists j :: i <= j < |images| && ShotCheck(t, images[j], j, detect, extract, score) == r
        && forall j' :: i <= j' < j ==> ShotCheck(t, images[j'], j', detect, extract, score).None?
    decreases |images| - i
  {
    if i == |images| then None
    else
      var here := ShotCheck(t, images[i], i, detect, extract, score);
      if here.Some? then here else FirstFailure(t, images, i + 1, detect, extract, score)
  }

  /** Every image shows exactly one face. */
  predicate OneFaceEach(images: seq<Image>, detect: Detector) {
    forall j :: 0 <= j < |images| ==> |detect(images[j])| == 1
  }

  /** The feature vectors of the single faces of the images, in image order. */
  function Extracted(images: seq<Image>, detect: Detector, extract: Extractor): (vs: seq<FeatureVector>)
    requires OneFaceEach(images, detect)
    ensures |vs| == |images|
    ensures forall j :: 0 <= j < |images| ==> vs[j] == extract(images[j], detect(images[j])[0])
  {
    seq(|images|, j requires 0 <= j < |images| => extract(images[j], detect(images[j])[0]))
  }

  /**
   * `register_face(images, name)` against table `t` at time `now`: the record it
   * stores, or why it refuses. The checks run in the source's order: image
   * count, name, then each image (face count, then duplicate face); the record
   * is only built once every check has passed.
   */
  function Enroll(t: Table, images: seq<Image>, name: string, now: string,
                  detect: Detector, extract: Extractor, score: Score): (r: Result<FaceRecord, RegisterError>)
    ensures |images| != RequiredImages ==> r == Failure(WrongImageCount)
    ensures |images| == RequiredImages && HasName(t, name) ==> r == Failure(NameTaken(name))
    ensures r.Success? <==>
      && |images| == RequiredImages
      && !HasName(t, name)
      && forall j :: 0 <= j < |images| ==> ShotCheck(t, images[j], j, detect, extract, score).None?
    ensures r.Success? ==>
      && OneFaceEach(images, detect)
      && r.value.allFeatures.Some?
      && var vs := r.value.allFeatures.value;
      && |vs| == RequiredImages
      && (forall j :: 0 <= j < |vs| ==> vs[j] == extract(images[j], detect(images[j])[0]))
      && (forall j :: 0 <= j < FeatureLength ==> r.value.features[j] == (vs[0][j] + vs[1][j] + vs[2][j]) / 3.0)
      && r.value.imageCount == RequiredImages
      && r.value.registeredAt == now
    ensures r.Failure? && |images| == RequiredImages && !HasName(t, name) ==>
      exists j :: 0 <= j < |images| && ShotCheck(t, images[j], j, detect, extract, score) == Some(r.error)
        && forall j' :: 0 <= j' < j ==> ShotCheck(t, images[j'], j', detect, extract, score).None?
  {
    if |images| != RequiredImages then Failure(WrongImageCount)
    else if HasName(t, name) then Failure(NameTaken(name))
    else
      match FirstFailure(t, images, 0, detect, extract, score)
      case Some(e) => Failure(e)
      case None =>
        assert OneFaceEach(images, detect) by {
          forall j | 0 <= j < |images| ensures |detect(images[j])| == 1 {
            assert ShotCheck(t, images[j], j, detect, extract, score).None?;
          }
        }
        var vs := Extracted(images, detect, extract);
        MeanOfThree(vs[0], vs[1], vs[2]);
        assert vs == [vs[0], vs[1], vs[2]];
        Success(FaceRecord(Mean(vs), Some(vs), now, |images|))
  }

  /**
   * The first failing image decides the reason: when images before `i` pass
   * and image `i` fails, registration fails with image `i`'s reason.
   */
  lemma FirstFailingImageDecides(t: Table, images: seq<Image>, name: string, now: string,
                                 detect: Detector, extract: Extractor, score: Score, i: nat)
    requires |images| == RequiredImages && !HasName(t, name) && i < |images|
    requires forall j :: 0 <= j < i ==> ShotCheck(t, images[j], j, detect, extract, score).None?
    requires ShotCheck(t, images[i], i, detect, extract, score).Some?
    ensures Enroll(t, images, name, now, detect, extract, score)
         == Failure(ShotCheck(t, images[i], i, detect, extract, score).value)
  {
    var r := Enroll(t, images, name, now, detect, extract, score);
    var j :| 0 <= j < |images| && ShotCheck(t, images[j], j, detect, extract, score) == Some(r.error)
      && forall j' :: 0 <= j' < j ==> ShotCheck(t, images[j'], j', detect, extract, score).None?;
    assert j == i;
  }

  /**
   * A person already registered is refused: if one of three images shows a
   * single face that scores above 0.85 against some entry (primary or
   * individual vector), registration fails, whatever the other images hold,
   * as long as the table's names are non-empty.
   */
  lemma DuplicatePersonRejected(t: Table, images: seq<Image>, name: string, now: string,
                                detect: Detector, extract: Extractor, score: Score, j: nat, k: nat)
    requires NamesNonEmpty(t)
    requires |images| == RequiredImages && j < |images| && k < |t|
    requires |detect(images[j])| == 1
    requires Qualifies(extract(images[j], detect(images[j])[0]), t[k].record, score, DuplicateThreshold)
    ensures Enroll(t, images, name, now, detect, extract, score).Failure?
  {
    var dup := FindSimilar(extract(images[j], detect(images[j])[0]), t, score, DuplicateThreshold);
    assert dup.Some?;
    var k' :| 0 <= k' < |t| && t[k'].name == dup.value;
    assert t[k'] in t;
    assert ShotCheck(t, images[j], j, detect, extract, score).Some?;
  }

  /** An image with no face or several faces makes registration fail. */
  lemma BadFaceCountRejected(t: Table, images: seq<Image>, name: string, now: string,
                             detect: Detector, extract: Extractor, score: Score, j: nat)
    requires j < |images| && |detect(images[j])| != 1
    ensures Enroll(t, images, name, now, detect, extract, score).Failure?
  {
    assert ShotCheck(t, images[j], j, detect, extract, score).Some?;
  }

  /**
   * The reason reported for a refused image names the first failing image,
   * 1-based, or the name of the entry it duplicates: the first entry, in table
   * order, that the duplicate search finds for one of the images.
   */
  lemma RejectionReasonNamesImage(t: Table, images: seq<Image>, name: string, now: string,
                                  detect: Detector, extract: Extractor, score: Score)
    requires |images| == RequiredImages && !HasName(t, name)
    requires Enroll(t, images, name, now, detect, extract, score).Failure?
    ensures var e := Enroll(t, images, name, now, detect, extract, score).error;
      || (e.NoFace? && 1 <= e.image <= RequiredImages && |detect(images[e.image - 1])| == 0)
      || (e.MultipleFaces? && 1 <= e.image <= RequiredImages && |detect(images[e.image - 1])| > 1)
      || (e.DuplicateFace? && e.existing != "" && HasName(t, e.existing)
          && exists j :: 0 <= j < RequiredImages && |detect(images[j])| == 1
               && FindSimilar(extract(images[j], detect(images[j])[0]), t, score, DuplicateThreshold) == Some(e.existing))
  {
    var e := Enroll(t, images, name, now, detect, extract, score).error;
    var j :| 0 <= j < |images| && ShotCheck(t, images[j], j, detect, extract, score) == Some(e)
      && forall j' :: 0 <= j' < j ==> ShotCheck(t, images[j'], j', detect, extract, score).None?;
    if e.DuplicateFace? {
      assert j < RequiredImages && |detect(images[j])| == 1
        && FindSimilar(extract(images[j], detect(images[j])[0]), t, score, DuplicateThreshold) == Some(e.existing);
    }
  }
}
