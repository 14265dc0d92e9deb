/** Optional values and success-or-error results used throughout the model. */
module Wrappers {

  /** An optional value, used where the source scans for something that may be absent. */
  datatype Option<+T> = None | Some(value: T)

  /** Either a value or the error the source would raise instead. */
  datatype Result<+R, +E> = Success(value: R) | Failure(error: E)
}
