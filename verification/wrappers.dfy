/** Failure-carrying datatypes shared by the request-handler models. */
module Wrappers {

  /** A value that may be absent, such as an optional form field. */
  datatype Option<+T> = None | Some(value: T)

  /** The outcome of a request handler: a value, or the error it answers with. */
  datatype Result<+T, +E> = Success(value: T) | Failure(error: E)
}
