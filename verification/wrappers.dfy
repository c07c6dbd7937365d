/** Optional values and error-carrying results shared by the other modules. */
module Wrappers {

  /** Python's `None` or a present value. */
  datatype Option<+T> = None | Some(value: T)

  /** A returned value, or the exception the code raises instead. */
  datatype Result<+R, +E> = Success(value: R) | Failure(error: E)
}
