/** The usual carriers for values that may be missing and for the ways a script can stop. */
module Wrappers {

  datatype Option<+T> = None | Some(value: T)

  datatype Result<+T, +E> = Ok(value: T) | Stop(error: E)
}
