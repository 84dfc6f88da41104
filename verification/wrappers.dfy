/** Failure-carrying result types used in place of the exceptions and nulls of the
    modelled code. */
module Wrappers {

  /** A value that may be absent: a null reference, or a collaborator that did not
      produce a value. */
  datatype Option<+T> = None | Some(value: T)

  /** Either a value or the error that prevented it: a thrown exception becomes
      `Failure`. */
  datatype Result<+R, +E> = Success(value: R) | Failure(error: E)
}
