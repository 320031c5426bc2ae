/** Optional values: the model's stand-in for Python's `None`. */
module Wrappers {

  /** `None` plays the role of Python's `None`; `Some(v)` carries a value. */
  datatype Option<+T> = None | Some(value: T)
}
