/** Option and Result, the two failure-compatible types the model uses. */
module Wrappers {

  datatype Option<+T> = None | Some(value: T)

  /** A stage of the publisher either yields a value or fails with an error. */
  datatype Result<+R, +E> = Success(value: R) | Failure(error: E) {

    predicate IsFailure() {
      Failure?
    }

    function PropagateFailure<U>(): Result<U, E>
      requires Failure?
    {
      Failure(error)
    }

    function Extract(): R
      requires Success?
    {
      value
    }
  }
}
