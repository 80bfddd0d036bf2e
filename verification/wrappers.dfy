/** Failure-compatible Option and Result datatypes, usable with `:-`. */
module Wrappers {

  datatype Option<+T> = None | Some(value: T)

  /** Either the value an operation computed or the error that aborted it */
  datatype Result<+R, +E> = Success(value: R) | Failure(error: E) {

    predicate IsFailure() {
      Failure?
    }

    function PropagateFailure<U>(): Result<U, E>
      requires Failure?
    {
      Failure(error)
    }

    function Extract(): R
      requires Success?
    {
      value
    }
  }
}
