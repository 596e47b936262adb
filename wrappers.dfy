/** Failure-carrying wrapper types shared by the model. */
module Wrappers {

  /** An optional value; for a table slot, None plays the part of Go's nil slice. */
  datatype Option<+T> = None | Some(value: T)

  /** A computation that either yields a value or stops with an error (a Go panic here). */
  datatype Result<+T, +E> = Success(value: T) | Failure(error: E)
}
