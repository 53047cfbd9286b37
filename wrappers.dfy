/** Failure-carrying wrappers shared by the handlers' models. */
module Wrappers {

  /** A value that may be absent: Prisma's `null`. */
  datatype Option<+T> = None | Some(value: T)

  /** Either a handler's result or the kind of error it throws. */
  datatype Result<+R, +E> = Success(value: R) | Failure(error: E)
}
