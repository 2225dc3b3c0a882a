/**
 * The vocabulary of an `android.graphics.Matrix` recipe.
 *
 * The transformation builders only ever post-concatenate translations, one
 * rotation and one scale onto an identity matrix. The model records that
 * sequence of operations; what the platform's matrix arithmetic makes of it
 * is outside the model.
 */
module MatrixOps {

  /** A Java `int`. */
  type Int32 = x: int | -0x8000_0000 <= x < 0x8000_0000

  /** The float quotient `num / (float) den`, kept unevaluated (den may be 0). */
  datatype Ratio = Ratio(num: int, den: int)

  datatype MatrixOp =
    | PostTranslate(dx: real, dy: real)
    | PostRotate(degrees: int)
      /** `postScale(sx, sy)`: independent scale factors per axis */
    | PostScale(sx: Ratio, sy: Ratio)
      /** `postScale(s, s)` with `s = Math.max(sx, sy)` */
    | PostScaleUniformMax(sx: Ratio, sy: Ratio)
  {
    predicate IsScale() {
      PostScale? || PostScaleUniformMax?
    }
  }

  type Recipe = seq<MatrixOp>

  /** Half of an `int`, as the float expression `x / 2.0f`. */
  function Half(x: int): real {
    x as real / 2.0
  }
}
