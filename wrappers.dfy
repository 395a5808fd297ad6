/** Failure-compatible wrappers shared by the pipeline stages. */
module Wrappers {

  /** A value that may be absent: a lookup that misses, an exception the caller sees. */
  datatype Option<T> = None | Some(value: T)

  /** A value or the error that stopped the stage. */
  datatype Result<T, E> = Success(value: T) | Failure(error: E)
}
