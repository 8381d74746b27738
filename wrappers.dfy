/** Option and Result, used by the rest of the model. */
module Wrappers {

  /** A value that may be missing, e.g. the outcome of a parse that can fail. */
  datatype Option<+T> = None | Some(value: T)

  /** Either a value or the reason there is none. */
  datatype Result<+R, +E> = Success(value: R) | Failure(error: E)
}
