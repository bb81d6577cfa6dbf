/** Optional values and success-or-error results shared by the announcement model. */
module Wrappers {

  /** An optional value: `None` when absent. */
  datatype Option<+T> = None | Some(value: T)

  /** Either a value or the error that stopped its computation. */
  datatype Result<+R, +E> = Success(value: R) | Failure(error: E)
}
