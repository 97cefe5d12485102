/** Option and Result, used for the Python `None` returns and raised exceptions of the core. */
module Wrappers {

  datatype Option<+T> = None | Some(value: T)

  datatype Result<+R, +E> = Success(value: R) | Failure(error: E)
}
