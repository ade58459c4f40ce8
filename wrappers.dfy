/** Option and Result values for absent values and thrown errors. */
module Wrappers {

  /** A value that may be absent (JavaScript `null` or `undefined`). */
  datatype Option<+T> = None | Some(value: T)

  /** The outcome of a step that either returns a value or throws an error message. */
  datatype Result<+R> = Success(value: R) | Failure(error: string)
}
