/** The optional value used across the model: a slot that may never have been written, an absent list. */
module Wrappers {
  datatype Option<+T> = None | Some(value: T)
}
