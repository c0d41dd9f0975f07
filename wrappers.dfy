/** Failure-compatible return types used by the model in place of null and exceptions. */
module Wrappers {

  /** `None` stands for a C# `null` result. */
  datatype Option<+T> = None | Some(value: T)

  /** `Err` stands for an exception thrown to the caller. */
  datatype Result<+R, +E> = Ok(value: R) | Err(error: E)
}
