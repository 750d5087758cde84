/** Failure-compatible wrappers used across the model: an optional value
    (a nullable relation or field) and a success-or-error result. */
module Wrappers {

  /** A value that may be absent: an unset Datetime, an attendee without a
      linked member, a reservation without a ticket page. */
  datatype Option<+T> = None | Some(value: T)

  /** The verdict of a check that either yields a value or reports an error. */
  datatype Result<+R, +E> = Success(value: R) | Failure(error: E)
}
