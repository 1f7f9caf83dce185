/** Optional values and results with an error, as the scripts use `None` and raised exceptions. */
module Wrappers {

  /** Python's `Optional[T]`: `None` or a value. */
  datatype Option<+T> = None | Some(value: T)

  /** A value, or the message of the exception the script would raise instead. */
  datatype Result<+R, +E> = Success(value: R) | Failure(error: E)
}
