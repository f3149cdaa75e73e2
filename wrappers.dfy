/** Option and Result, used for the outcomes that PHP signals with `false`, `null` or an error. */
module Wrappers {

  datatype Option<+T> = None | Some(value: T)

  datatype Result<+R, +E> = Success(value: R) | Failure(error: E)
}
