/** Option and Result wrappers shared by the model's modules. */
module Wrappers {
  datatype Option<+T> = None | Some(value: T)

  /** Ok carries a value; Err carries the exception the source would raise. */
  datatype Result<+T, +E> = Ok(value: T) | Err(error: E)
}
