/** Stock optional-value datatype used across the model. */
module Wrappers {

  /** `None` stands for PHP's `null` or for a field that has not been set yet. */
  datatype Option<+T> = None | Some(value: T)
}
