/** Optional values and results with an error, as used by the event handlers. */
module Wrappers {

  /** A value that may be absent (JavaScript's `null`). */
  datatype Option<+T> = None | Some(value: T)

  /** The outcome of an event handler: the new state, or the error it throws. */
  datatype Result<+T, +E> = Success(value: T) | Failure(error: E)
}
