/** Failure-carrying return values shared by the modules of this model. */
module Wrappers {

  datatype Option<+T> = None | Some(value: T)

  /** A successful value, or the message of an exception the Python code raises or catches. */
  datatype Result<+R, +E> = Success(value: R) | Failure(error: E)
}
