/** Failure-compatible wrappers used for the Python exceptions of the model. */
module Wrappers {

  datatype Option<+T> = None | Some(value: T)

  /** A value or the error that the Python code would raise instead. */
  datatype Result<+R, +E> = Success(value: R) | Failure(error: E) {
    predicate IsFailure() {
      Failure?
    }

    function PropagateFailure<U>(): Result<U, E>
      requires Failure?
    {
      Failure(error)
    }

    function Extract(): R
      requires Success?
    {
      value
    }
  }

  /** The result of a call that returns nothing useful but may raise. */
  datatype Outcome<+E> = Pass | Fail(error: E)
}
