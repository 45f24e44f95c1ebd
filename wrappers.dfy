/** Optional values and results with an error, for NULL columns and failed statements. */
module Wrappers {

  /** A value that may be absent, like a nullable column or an empty `fetchone()`. */
  datatype Option<T> = None | Some(value: T)

  /** The outcome of a statement that can raise. */
  datatype Result<T, E> = Success(value: T) | Failure(error: E)
}
