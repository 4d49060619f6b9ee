/** Option and Result, the two failure-carrying values the model returns. */
module Wrappers {
  /** An optional value, Python's `Optional[str]` (`None` or a string). */
  datatype Option<+T> = None | Some(value: T)

  /** The outcome of an operation that may raise. */
  datatype Result<+R, +E> = Success(value: R) | Failure(error: E)
}
