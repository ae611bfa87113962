/** Option and Result, for the drag library's optional destination and for
    the one way the drag handler can fail. */
module Wrappers {

  datatype Option<+T> = None | Some(value: T)

  datatype Result<+T, +E> = Success(value: T) | Failure(error: E)
}
