/** The two wrappers the other modules share: a value that may be missing (None in the
    program) and a computation that may raise. */
module Wrappers {
  datatype Option<+T> = None | Some(value: T)

  datatype Result<+T, +E> = Ok(value: T) | Err(error: E)
}
