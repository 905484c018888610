/** Option and Result, used for JavaScript's `undefined` and for calls that throw */
module Wrappers {

  /** `None` stands for JavaScript's `undefined` (or SQL NULL, where a column is nullable). */
  datatype Option<+T> = None | Some(value: T) {
    function GetOr(default: T): T {
      match this
      case Some(v) => v
      case None => default
    }
  }

  /** The outcome of an operation that may throw: `Failure` carries the error. */
  datatype Result<+R, +E> = Success(value: R) | Failure(error: E)

}
