/** Optional values and results with a failure side, as the manager's callers see them:
    Python's `None` and a raised exception. */
module Wrappers {

  /** A value that may be absent (Python's `None`). */
  datatype Option<+T> = None | Some(value: T)

  /** Either a value or the error a call raised. */
  datatype Result<+R, +E> = Success(value: R) | Failure(error: E)
}
