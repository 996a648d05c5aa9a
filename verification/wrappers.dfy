/** Option and Result, shared by the provider adapters and the best-rate selector. */
module Wrappers {

  /** A value that may be absent, as Python's `None`. */
  datatype Option<+T> = None | Some(value: T)

  /** Either a computed value or the error that interrupted the computation. */
  datatype Result<+R, +E> = Success(value: R) | Failure(error: E)
}
