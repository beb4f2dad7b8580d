/** Option and Result: a JavaScript `undefined` and a value, and a JavaScript exception and a value. */
module Wrappers {

  datatype Option<+T> = None | Some(value: T)

  /** A computation that either returns a value or throws a JavaScript exception carrying `error`. */
  datatype Result<+T, +E> = Ok(value: T) | Err(error: E)
}
