/** Optional values and results with an error, used throughout the model. */
module Wrappers {

  /** A value that may be absent: a JSON field that is missing (or null). */
  datatype Option<+T> = None | Some(value: T)

  /** The outcome of a step that can abort with a message. */
  datatype Result<+T, +E> = Success(value: T) | Failure(error: E)
}
