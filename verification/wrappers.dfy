/** Failure-carrying datatypes shared by the whole model. */
module Wrappers {

  /** A value that may be absent; stands for Python's `None` where a column or
      form field is optional. */
  datatype Option<+T> = None | Some(value: T)

  /** Either a value or the reason the operation raised instead. */
  datatype Result<+T, +E> = Ok(value: T) | Err(error: E)
}
