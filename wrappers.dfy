/** Optional values and error-carrying results, standing in for Go's `(value, error)` returns. */
module Wrappers {

  datatype Option<+T> = None | Some(value: T)

  /** A value or the error that stopped the operation. */
  datatype Result<+T, +E> = Success(value: T) | Failure(error: E)

  /** Go's bare `error` return: nil, or an error. */
  datatype Outcome<+E> = Pass | Fail(error: E)
}
