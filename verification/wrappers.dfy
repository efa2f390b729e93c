/** Option and Result types shared by every module of the model. */
module Wrappers {

  /** An optional value: PHP's `null` or a missing array entry. */
  datatype Option<+T> = None | Some(value: T) {

    /** The wrapped value, or `default` when absent (PHP's `??`). */
    function GetOr(default: T): T
    {
      match this
      case Some(v) => v
      case None => default
    }
  }

  /** A computation that either succeeds or raises an exception. */
  datatype Result<+T, +E> = Success(value: T) | Failure(error: E) {

    predicate IsFailure()
    {
      Failure?
    }

    function PropagateFailure<U>(): Result<U, E>
      requires Failure?
    {
      Failure(error)
    }

    function Extract(): T
      requires Success?
    {
      value
    }
  }
}
