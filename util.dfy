/** Failure-carrying wrappers shared by the rest of the model. */
module Util {

  /** An optional value: an empty `OptionalInt`, or a Java `null` / out-of-bounds lookup. */
  datatype Option<+T> = None | Some(value: T)

  /** The outcome of a Java call that either returns a value or throws. */
  datatype Result<+T, +E> = Ok(value: T) | Err(error: E)
}
