/** Optional values and fallible results, used across the model. */
module Wrappers {

  /** A value that may be absent, as an optional header or option is. */
  datatype Option<+T> = None | Some(value: T)

  /** The outcome of an operation that can fail, as the external decoder can. */
  datatype Result<+T, +E> = Success(value: T) | Failure(error: E)
}
