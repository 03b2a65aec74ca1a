/** Option and Result, used for the error paths of the route builder and of the
    CNI configuration patch. */
module Wrappers {

  datatype Option<+T> = None | Some(value: T)

  datatype Result<+R, +E> = Success(value: R) | Failure(error: E)
}
