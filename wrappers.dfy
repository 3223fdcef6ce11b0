/** Optional values and success/failure results used throughout the model. */
module Wrappers {

  /** A value that may be missing: a key absent from a field map, a null column. */
  datatype Option<+T> = None | Some(value: T)

  /** The outcome of an operation that either succeeds with a value or fails with an error. */
  datatype Result<+T, +E> = Success(value: T) | Failure(error: E)
}
