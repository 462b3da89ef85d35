/** Option and Result: Python's `None` and a raised exception, shared by every module. */
module Wrappers {

  /** A value, or `None` where the source returns `None`. */
  datatype Option<+T> = None | Some(value: T)

  /** The outcome of an operation that raises an exception in the source. */
  datatype Result<+R, +E> = Success(value: R) | Failure(error: E)
}
