/** Option and Result values for absent values and failed reads. */
module Wrappers {

  /** A value that may be absent, such as a file that does not exist. */
  datatype Option<+T> = None | Some(value: T)

  /** The outcome of an operation that can fail, such as reading a ban file. */
  datatype Result<+R, +E> = Success(value: R) | Failure(error: E)
}
