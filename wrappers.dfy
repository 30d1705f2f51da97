/** Option stands for a JavaScript value that may be `undefined` or `null`;
    Result for a computation that either yields a value or raises an error. */
module Wrappers {

  datatype Option<+T> = None | Some(value: T)

  datatype Result<+T, +E> = Ok(value: T) | Err(error: E)
}
