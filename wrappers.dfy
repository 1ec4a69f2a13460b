/** Optional values: the model's stand-in for Python's `None` and for an exception. */
module Wrappers {
  datatype Option<+T> = None | Some(value: T)
}
