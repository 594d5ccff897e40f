/** Small failure-carrying datatypes shared by the other modules. */
module Wrappers {

  /** A value that may be absent. */
  datatype Option<+T> = None | Some(value: T)

  /** The outcome of an operation that either completes or fails with a message. */
  datatype Outcome = Done | Failed(message: string)
}
