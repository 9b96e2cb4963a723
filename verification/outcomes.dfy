/** Failure-carrying result types shared by the configuration modules. */
module Outcomes {

  /** An optional value: the result of a lookup or of a parse that may reject its input. */
  datatype Option<+T> = None | Some(value: T)

  /** A computation that either produced a value or stopped with an error. */
  datatype Result<+T, +E> = Ok(value: T) | Err(error: E)
}
