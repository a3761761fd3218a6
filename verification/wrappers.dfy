/** The optional-value datatype used throughout the model. */
module Wrappers {

  /** `None` stands for a missing value (JavaScript `null` where the shim tests for it). */
  datatype Option<+T> = None | Some(value: T)
}
