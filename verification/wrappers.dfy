/** The optional-value and success-or-error datatypes used across the timetable model. */
module Wrappers {

  /** A value that may be absent: a JavaScript `null`/`undefined`, or a lookup that found nothing. */
  datatype Option<+T> = None | Some(value: T)

  /** Either a computed value or the reason an operation refused to produce one. */
  datatype Result<+R, +E> = Success(value: R) | Failure(error: E)
}
