/** Option and Result, the two wrapper types the model uses for absent values and error returns. */
module Wrappers {

  /** A value that may be absent: Python's None, or a SQL NULL column. */
  datatype Option<+T> = None | Some(value: T)

  /** The outcome of a request handler: a value, or the error the handler reports. */
  datatype Result<+R, +E> = Success(value: R) | Failure(error: E)
}
