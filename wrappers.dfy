/** Option and Result values shared by the modules of the model. */
module Wrappers {

  /** A JavaScript value that may be `undefined` (None) or present (Some). */
  datatype Option<+T> = None | Some(value: T)

  /** The outcome of an expression that either yields a value or throws. */
  datatype Result<+T, +E> = Success(value: T) | Failure(error: E)

}
