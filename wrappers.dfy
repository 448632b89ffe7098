/** Success-or-error values: the model's stand-in for Python exceptions that are caught and stored. */
module Wrappers {

  datatype Option<+T> = None | Some(value: T)

  datatype Result<+T, +E> = Ok(value: T) | Err(error: E)
}
