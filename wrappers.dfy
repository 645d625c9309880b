/** The optional-value and result types shared by the other modules. */
module Wrappers {

  datatype Option<T> = None | Some(value: T)

  /** The value of a computation that may throw `E` instead. */
  datatype Result<T, E> = Ok(value: T) | Err(error: E)
}
