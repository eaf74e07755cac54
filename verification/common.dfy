/** Failure-carrying wrappers shared by every module of the model. */
module Common {

  /** A value that may be absent: a missing body field, JSON `null`, a failed lookup. */
  datatype Option<+T> = None | Some(value: T)

  /** Either a value or the error that stopped the computation. */
  datatype Result<+T, +E> = Success(value: T) | Failure(error: E)
}
