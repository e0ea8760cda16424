/** Option and Result: the pipeline's missing values and its raised exceptions. */
module Wrappers {

  datatype Option<+T> = None | Some(value: T)

  /** Ok carries a value; Err carries the exception the pipeline would raise. */
  datatype Result<+T, +E> = Ok(value: T) | Err(error: E)
}
