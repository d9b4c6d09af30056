/** The optional values that stand for the source's nullable references. */
module Wrappers {

  /** `None` is a C# `null`, `Some(v)` a non-null reference to `v`. */
  datatype Option<+T> = None | Some(value: T)
}
