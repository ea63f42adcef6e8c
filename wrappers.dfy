/** Failure-carrying wrappers shared by the whole model. */
module Wrappers {

  /** A value that may be absent: a null pointer or an absent record in the source. */
  datatype Option<+T> = None | Some(value: T)

  /** The result of an operation that the source aborts with an exception or leaves undefined. */
  datatype Outcome<+E> = Pass | Fail(error: E)
}
