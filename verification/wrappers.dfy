/** The optional-value datatype the rest of the model uses in place of C's NULL pointers. */
module Wrappers {

  /** `None` stands for a NULL pointer, `Some(v)` for a pointer to `v`. */
  datatype Option<+T> = None | Some(value: T)
}
