/** Optional and fallible results. */
module Wrappers {

  datatype Option<+T> = None | Some(value: T)

  /** A value, or the message of the error the source throws instead. */
  datatype Result<+R, +E> = Success(value: R) | Failure(error: E)
}
