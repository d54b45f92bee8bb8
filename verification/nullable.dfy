/** Values that may be absent, the way a C pointer may be NULL. */
module Nullable {

  /** `None` plays the role of NULL; `Some(v)` is a pointer to `v`. */
  datatype Option<+T> = None | Some(value: T)
}
