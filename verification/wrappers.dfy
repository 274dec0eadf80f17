/** Failure-carrying results shared by every module of the model. */
module Wrappers {

  /** The two error classes the library throws. */
  datatype Error = RangeError | TypeError

  datatype Option<+T> = None | Some(value: T)

  /** The value an operation returns, or the error it throws. */
  datatype Result<+T> = Ok(value: T) | Err(error: Error)

  /** The outcome of an operation that returns nothing but may throw. */
  datatype Outcome = Pass | Fail(error: Error)
}
