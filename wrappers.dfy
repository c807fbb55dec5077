/** Option and Result, and the Python exceptions the modelled code can raise. */
module Wrappers {

  datatype Option<+T> = None | Some(value: T)

  datatype Result<+R, +E> = Success(value: R) | Failure(error: E)

  /** The exceptions raised by the partitioning and flattening utilities. */
  datatype Exception = ZeroDivisionError | TypeError
}
