/** Option, the value-or-nothing wrapper used across the model. */
module Wrappers {
  datatype Option<+T> = None | Some(value: T)
}
