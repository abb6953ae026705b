/** The optional value used wherever the dictionary hands back a node or a
    cached pointer that may be absent, and the outcome of a call that can
    raise. */
module Wrappers {

  datatype Option<+T> = None | Some(value: T)

  /** A call that either completes with a value or raises before completing. */
  datatype Outcome<+T> = Done(value: T) | Raised
}
