/** Failure-compatible wrapper used for operations that panic in the modelled program. */
module Wrappers {

  /** `None` stands for a panic (an out-of-range slice); `Some` carries the value. */
  datatype Option<+T> = None | Some(value: T)
}
