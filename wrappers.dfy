/** Option and Result, the failure-carrying values the rest of the model uses. */
module Wrappers {

  /** A value that may be missing: a pandas NaN / NaT / None cell is `None`. */
  datatype Option<+T> = None | Some(value: T)

  /** The outcome of an operation that can raise. */
  datatype Result<+T, +E> = Ok(value: T) | Err(error: E)
}
