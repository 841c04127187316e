/** Option and result types shared by the model. */
module Wrappers {

  /** A value that may be absent (the source's `null` / `undefined`). */
  datatype Option<+T> = None | Some(value: T)

  /** The outcome of a service call: a value, or the error the service throws. */
  datatype Result<+T, +E> = Success(value: T) | Failure(error: E)

  /** The outcome of a step that produces no value. */
  datatype Outcome<+E> = Pass | Fail(error: E)
}
