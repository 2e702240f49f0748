/** Optional values and results used across the model. */
module Wrappers {

  /** An optional value: an outgoing message that may or may not be sent. */
  datatype Option<+T> = None | Some(value: T)

  /** A value or the error that prevented it. */
  datatype Result<+T, +E> = Success(value: T) | Failure(error: E)
}
