/** Optional values and results that carry either a value or an error. */
module Wrappers {

  /** An absent (null, missing) or present value. */
  datatype Option<+T> = None | Some(value: T)

  /** The outcome of an operation that can raise: a value or the error raised. */
  datatype Result<+T, +E> = Success(value: T) | Failure(error: E)
}
