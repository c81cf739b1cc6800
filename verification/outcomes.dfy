/** Failure-carrying results used where the Java code throws or returns null. */
module Outcomes {

  /** A value that may be absent (a Java `null`, or an operation that would throw). */
  datatype Option<+T> = None | Some(value: T)

  /** Either a value or the message of the exception the Java code throws. */
  datatype Result<+T> = Ok(value: T) | Err(message: string)
}
