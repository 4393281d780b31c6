/** Optional values and success-or-error results shared by the other modules. */
module Wrappers {

  /** An optional value: the result of a search that may find nothing. */
  datatype Option<+T> = None | Some(value: T)

  /** The outcome of an operation that either succeeds with a value or fails with an error. */
  datatype Result<+R, +E> = Success(value: R) | Failure(error: E)
}
