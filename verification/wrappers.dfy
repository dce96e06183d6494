/** Failure-compatible helper datatypes shared by the model. */
module Wrappers {

  /** An optional value; stands in for Python's `None` versus a value. */
  datatype Option<+T> = None | Some(value: T)

  /** A computation that either produced a value or reported an error message. */
  datatype Result<+T> = Ok(value: T) | Err(msg: string)
}
