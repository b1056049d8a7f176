/** Failure-compatible wrappers used throughout the model. */
module Wrappers {

  /** An optional value: a JSON key that may be absent, a nullable column, an anonymous viewer. */
  datatype Option<+T> = None | Some(value: T) {
    /** The value, or `default` when absent. */
    function GetOr(default: T): T {
      match this
      case Some(v) => v
      case None => default
    }
  }

  /** The outcome of an operation that either returns a value or throws an error. */
  datatype Result<+T, +E> = Success(value: T) | Failure(error: E)

  /** The outcome of a check that either passes or throws an error. */
  datatype Outcome<+E> = Pass | Fail(error: E)
}
