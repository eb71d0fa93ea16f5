/** Small failure-compatible datatypes shared by the model. */
module Wrappers {

  /** A possibly-null pointer: `None` is C's NULL. */
  datatype Option<T> = None | Some(value: T)
}
