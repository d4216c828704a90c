/** Failure-compatible wrappers used across the model. */
module Wrappers {

  /** A value that may be absent: Python's `None`, or a regex search without a match. */
  datatype Option<+T> = None | Some(value: T)
}
