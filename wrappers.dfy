/** Failure-carrying result types shared by the two modules of the model. */
module Wrappers {

  /** A value that may be absent: JavaScript's `null` / `undefined`. */
  datatype Option<T> = None | Some(value: T)

  /** The outcome of a call that may throw: `Err` carries what was thrown. */
  datatype Result<T, E> = Ok(value: T) | Err(error: E)
}
