/** Optional values and success-or-error results, as used throughout the model. */
module Wrappers {

  /** A value that may be absent: Python's `Optional[...]`, where `None` stands for the missing value. */
  datatype Option<+T> = None | Some(value: T)

  /** The outcome of an operation that either yields a value or fails with an error. */
  datatype Result<+R, +E> = Success(value: R) | Failure(error: E)
}
