/** Small failure-carrying datatypes shared by the modules of the task tracker. */
module Wrappers {

  datatype Option<+T> = None | Some(value: T)

  /** The outcome of an operation that either finishes or stops with an error. */
  datatype Outcome<+E> = Pass | Fail(error: E)
}
