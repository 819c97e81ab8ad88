/** `Option` stands for a nullable reference, `Result` for success or an
    assertion failure. */
module Wrappers {

  /** A value that may be absent (Java `null`). */
  datatype Option<+T> = None | Some(value: T)

  /** Either a success value or the error that the operation reports. */
  datatype Result<+R, +E> = Success(value: R) | Failure(error: E)
}
