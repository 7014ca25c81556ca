/** `Option` and `Result`, shared by the other modules. */
module Wrappers {

  /** A value that may be absent: JavaScript's `undefined`/`NaN` outcomes. */
  datatype Option<+T> = None | Some(value: T)

  /** Either a value or an error, for operations that can throw. */
  datatype Result<+R, +E> = Success(value: R) | Failure(error: E)
}
