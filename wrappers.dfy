/** Failure-compatible result type shared by the modules of this model. */
module Wrappers {

  /** Either a value or the error that the source raises instead of returning one. */
  datatype Result<+R, +E> = Success(value: R) | Failure(error: E) {

    predicate IsFailure() {
      Failure?
    }

    function PropagateFailure<U>(): Result<U, E>
      requires Failure?
    {
      Failure(error)
    }

    function Extract(): R
      requires Success?
    {
      value
    }
  }

  datatype Option<+T> = None | Some(value: T)
}
