/** The optional-value datatype used throughout the model. */
module Wrappers {

  /** `None` for "absent" (a missing key, no match); `Some(v)` otherwise. */
  datatype Option<+T> = None | Some(value: T)
}
