/** Option and Result, for values the source leaves `undefined` and for inputs it cannot read. */
module Wrappers {

  datatype Option<+T> = None | Some(value: T)

  datatype Result<+R, +E> = Success(value: R) | Failure(error: E)
}
