/** Option and Result, the shapes every validator and lookup returns. */
module Wrappers {

  datatype Option<+T> = None | Some(value: T)

  /** Either a value or the error that stopped the computation (a raised exception in the source). */
  datatype Result<+R, +E> = Success(value: R) | Failure(error: E)
}
