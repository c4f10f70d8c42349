/** Option and Result values, used where the source signals an error by
    throwing or by returning a sentinel. */
module Wrappers {

  datatype Option<+T> = None | Some(value: T)

  datatype Result<+R, +E> = Success(value: R) | Failure(error: E)
}
