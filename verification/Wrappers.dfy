/** Results of fallible operations; the Rust source uses `Option` and `io::Result`. */
module Wrappers {
  datatype Option<+T> = None | Some(value: T)

  datatype Result<+T, +E> = Ok(value: T) | Err(error: E)

  /** The empty success payload of an operation that only reports an error. */
  datatype Unit = Done
}
