/** Small failure-carrying datatypes shared by the parser and the planner. */
module Wrappers {

  datatype Option<+T> = None | Some(value: T)

  /** A value or the error that stopped the computation. */
  datatype Result<+R, +E> = Ok(value: R) | Err(error: E)

  /** Success, or the error that stopped the computation. */
  datatype Outcome<+E> = Pass | Fail(error: E)
}
