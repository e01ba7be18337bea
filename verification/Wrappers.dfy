/** The two result types the other modules share. */
module Wrappers {

  datatype Option<+T> = None | Some(value: T)

  /** A value, or the error that the program throws instead of returning one. */
  datatype Result<+T, +E> = Ok(value: T) | Err(error: E)
}
