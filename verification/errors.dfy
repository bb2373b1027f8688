/** The failures the smoothing and region-averaging routines can raise, and a
    failure-compatible Result type carrying them. */
module Errors {

  datatype Error =
      /** A face names a vertex index at or beyond the vertex count; `face` is the
          position of the first such face in the face list. */
    | FaceIndexOutOfRange(face: nat)
      /** A vertex that occurs in some face has no entry in the scalar field. */
    | ScalarIndexOutOfRange
      /** The label mask and the feature array differ in length. */
    | MaskLengthMismatch

  datatype Result<+T> = Success(value: T) | Failure(error: Error) {

    predicate IsFailure() {
      Failure?
    }

    function PropagateFailure<U>(): Result<U>
      requires Failure?
    {
      Failure(error)
    }

    function Extract(): T
      requires Success?
    {
      value
    }
  }
}
