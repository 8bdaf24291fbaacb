/** Small failure-aware wrappers shared by the matcher and the assigner. */
module Wrappers {

  /** A value that may be missing: a blank or unparseable score, or "no assigned score". */
  datatype Option<+T> = None | Some(value: T)

  /** The outcome of an operation that can fail with an error of type E. */
  datatype Result<+T, +E> = Ok(value: T) | Err(error: E)
}
