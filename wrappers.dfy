/** Failure-carrying wrappers used for the service's nullable and throwing results. */
module Wrappers {

  /** `T | null` in the service: a value or nothing. */
  datatype Option<+T> = None | Some(value: T)

  /** A value, or the error a call throws. */
  datatype Result<+R, +E> = Success(value: R) | Failure(error: E)
}
