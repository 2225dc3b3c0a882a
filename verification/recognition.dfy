/**
 * The records the recogniser and the tracker pass around:
 * `FaceRecognizer.RecognitionData` and the `RectF` boxes it carries.
 *
 * Java `float`s are modelled as `real`s and a nullable reference as an
 * `Option`. The feature vector is declared as `Object` but is always a
 * `float[][]` whose first row is the embedding; it is modelled as a sequence
 * of rows.
 */
module Recognition {
  import opened Wrappers

  /** An `android.graphics.RectF`: edges in float coordinates. */
  datatype RectF = RectF(left: real, top: real, right: real, bottom: real) {
    /** `RectF.width()` */
    function Width(): real {
      right - left
    }

    /** `RectF.height()` */
    function Height(): real {
      bottom - top
    }
  }

  /** `new RectF()`: all four edges at 0. */
  const EmptyRect := RectF(0.0, 0.0, 0.0, 0.0)

  /** A `float[]` vector. */
  type Vector = seq<real>

  /** A `float[][]`, of which only the first row is ever read. */
  type Embedding = seq<Vector>

  /** `RecognitionData` without its thumbnail bitmap, which no modelled code reads; `labelText` is its `label`. */
  datatype RecognitionData = RecognitionData(
    identifier: Option<string>,
    labelText: Option<string>,
    confidenceScore: Option<real>,
    featureVector: Option<Embedding>,
    boundingBox: Option<RectF>)
  {
    /** `setFeatureVector(vector)`: a copy with only the vector replaced. */
    function WithFeatureVector(vector: Option<Embedding>): RecognitionData {
      this.(featureVector := vector)
    }
  }

  /** `new RecognitionData(identifier, label, confidenceScore, boundingBox)`: no feature vector yet. */
  function Detected(identifier: string, labelText: string, confidenceScore: real, boundingBox: RectF): RecognitionData {
    RecognitionData(Some(identifier), Some(labelText), Some(confidenceScore), None, Some(boundingBox))
  }

  /** `new RecognitionData(label, featureVector)`: a stored identity, with no identifier, score or box. */
  function Enrolled(labelText: string, featureVector: Embedding): RecognitionData {
    RecognitionData(None, Some(labelText), None, Some(featureVector), None)
  }
}
