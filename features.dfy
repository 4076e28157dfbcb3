/**
 * Face images, detections and feature vectors.
 *
 * Detection (the Haar cascade), feature extraction (crop, resize to 100x100,
 * grayscale, flatten) and the similarity score (cosine of the two vectors) are
 * OpenCV/numpy computations; the model receives them as function parameters of
 * the types declared here.
 */
module Features {

  /** A decoded camera frame; its pixels are never inspected by the model. */
  type Image

  /** Side of the square a face crop is resized to before flattening. */
  const FaceSize: nat := 100

  /** Number of values in every extracted feature vector (100 x 100 gray pixels). */
  const FeatureLength: nat := FaceSize * FaceSize

  /** A flattened grayscale face crop; every extraction yields exactly FeatureLength values. */
  type FeatureVector = v: seq<real> | |v| == FeatureLength witness seq(FeatureLength, _ => 0.0)

  /** A detected face: `(x, y, w, h)` as returned by the cascade detector. */
  datatype Box = Box(x: int, y: int, w: int, h: int)

  /** The detector: the face boxes found in an image, in detection order. */
  type Detector = Image -> seq<Box>

  /** The extractor: the feature vector of the face inside a box of an image. */
  type Extractor = (Image, Box) -> FeatureVector

  /** The similarity score of two feature vectors, as a real number. */
  type Score = (FeatureVector, FeatureVector) -> real

  /** Sum of coordinate `j` over the vectors `vs`, adding them left to right. */
  function ColumnSum(vs: seq<FeatureVector>, j: int): real
    requires 0 <= j < FeatureLength
    decreases |vs|
  {
    if |vs| == 0 then 0.0 else ColumnSum(vs[..|vs| - 1], j) + vs[|vs| - 1][j]
  }

  /**
   * Element-wise mean of a non-empty list of vectors (`np.mean(vs, axis=0)`):
   * every coordinate, multiplied by the number of vectors, is that coordinate's sum.
   */
  function Mean(vs: seq<FeatureVector>): (m: FeatureVector)
    requires |vs| > 0
    ensures forall j :: 0 <= j < FeatureLength ==> m[j] * (|vs| as real) == ColumnSum(vs, j)
  {
    seq(FeatureLength, j requires 0 <= j < FeatureLength => ColumnSum(vs, j) / (|vs| as real))
  }

  /** The mean of three vectors is, coordinate by coordinate, a third of their sum. */
  lemma MeanOfThree(a: FeatureVector, b: FeatureVector, c: FeatureVector)
    ensures forall j :: 0 <= j < FeatureLength ==> Mean([a, b, c])[j] == (a[j] + b[j] + c[j]) / 3.0
  {
    forall j | 0 <= j < FeatureLength
      ensures Mean([a, b, c])[j] == (a[j] + b[j] + c[j]) / 3.0
    {
      assert [a][..0] == [];
      assert ColumnSum([a], j) == a[j];
      assert [a, b][..1] == [a];
      assert ColumnSum([a, b], j) == a[j] + b[j];
      assert [a, b, c][..2] == [a, b];
      assert ColumnSum([a, b, c], j) == a[j] + b[j] + c[j];
    }
  }

  /** Summing `k` copies of the same vector gives `k` times each coordinate. */
  lemma {:induction false} ColumnSumOfCopies(v: FeatureVector, k: nat, j: int)
    requires 0 <= j < FeatureLength
    ensures ColumnSum(seq(k, _ => v), j) == (k as real) * v[j]
  {
    if k > 0 {
      assert seq(k, _ => v)[..k - 1] == seq(k - 1, _ => v);
      ColumnSumOfCopies(v, k - 1, j);
    }
  }

  /** Averaging copies of one vector gives that vector back. */
  lemma MeanOfCopies(v: FeatureVector, k: nat)
    requires k > 0
    ensures Mean(seq(k, _ => v)) == v
  {
    var m := Mean(seq(k, _ => v));
    forall j | 0 <= j < FeatureLength ensures m[j] == v[j] {
      ColumnSumOfCopies(v, k, j);
    }
  }
}
