/** Optional values and results with an error, shared by every module. */
module Wrappers {

  /** A value that may be missing: `null`/`undefined` in the system modelled. */
  datatype Option<+T> = None | Some(value: T)

  /** The outcome of a resolver: a value, or the error it throws. */
  datatype Result<+T, +E> = Success(value: T) | Failure(error: E)
}
