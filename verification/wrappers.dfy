/** Failure-compatible result type used to model the exceptions thrown by the
    .NET string operations the editor relies on. */
module Wrappers {

  /** Either a computed value or the fault that interrupted the computation. */
  datatype Result<+T, +E> = Success(value: T) | Failure(error: E) {

    predicate IsFailure() {
      Failure?
    }

    function PropagateFailure<U>(): Result<U, E>
      requires Failure?
    {
      Failure(error)
    }

    function Extract(): T
      requires Success?
    {
      value
    }
  }

  datatype Option<+T> = None | Some(value: T)
}
