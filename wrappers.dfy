/** Failure-carrying results shared by the whole model. */
module Wrappers {

  /** The outcome of an operation that in the Java source may throw an
      IllegalArgumentException: either its value, or the exception's message. */
  datatype Outcome<+T> = Ok(value: T) | Thrown(message: string)
}
