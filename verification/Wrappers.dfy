/** Result shapes shared by the modelled components. */
module Wrappers {

  /** A value that may be absent. */
  datatype Option<+T> = None | Some(value: T)

  /** The outcome of an operation that may fail. */
  datatype Result<+T, +E> = Ok(value: T) | Err(error: E)

  function Max(a: int, b: int): int {
    if a < b then b else a
  }
}
