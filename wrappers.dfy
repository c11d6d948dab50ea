/** Option and Result, the two failure-compatible wrappers the model needs. */
module Wrappers {

  /** A value that may be absent (`undefined` or `null` behind optional chaining). */
  datatype Option<+T> = None | Some(value: T)

  /** The outcome of an operation that either returns a value or throws. */
  datatype Result<+R, +E> = Success(value: R) | Failure(error: E)
}
