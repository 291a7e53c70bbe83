/** Optional values and results: Python's `None` and the exceptions the collector raises. */
module Wrappers {

  /** A value that may be missing; `None` plays the part of Python's `None`. */
  datatype Option<+T> = None | Some(value: T)

  /** Either a computed value or the error the source would raise instead. */
  datatype Result<+T, +E> = Success(value: T) | Failure(error: E) {

    predicate IsFailure() {
      Failure?
    }

    function PropagateFailure<U>(): Result<U, E>
      requires Failure?
    {
      Failure(error)
    }

    function Extract(): T
      requires Success?
    {
      value
    }
  }
}
