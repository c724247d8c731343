/** Optional values and results shared by the calculator modules. */
module Wrappers {

  /** A value that may be absent. */
  datatype Option<+T> = None | Some(value: T)

  /** Either a computed value or an error value. */
  datatype Result<+R, +E> = Success(value: R) | Failure(error: E)
}
