/** Failure-carrying wrappers shared by the other modules. */
module Wrappers {

  /** A value that may be missing: a Python lookup or index that would raise. */
  datatype Option<+T> = None | Some(value: T)

  /** A value or the exception that stopped its computation. */
  datatype Result<+T, +E> = Ok(value: T) | Err(error: E)
}
