/** Failure-carrying values shared by the modules of this model. */
module Wrappers {

  datatype Option<+T> = None | Some(value: T)

  /** A value or the error that stopped its computation (a PHP exception). */
  datatype Result<+T, +E> = Ok(value: T) | Err(error: E)

  /** The answer of an operation that returns nothing or raises. */
  datatype Outcome<+E> = Pass | Fail(error: E)
}
