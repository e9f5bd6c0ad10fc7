/** Option and Result, the two failure-carrying wrappers used across the model. */
module Wrappers {

  /** A value that may be absent (TypeScript `undefined`). */
  datatype Option<+T> = None | Some(value: T)

  /** A value, or the error a computation raised instead (a Python exception). */
  datatype Result<+T, +E> = Success(value: T) | Failure(error: E) {

    predicate IsFailure() {
      Failure?
    }

    function PropagateFailure<U>(): Result<U, E>
      requires Failure?
    {
      Failure(error)
    }

    function Extract(): T
      requires Success?
    {
      value
    }
  }
}
