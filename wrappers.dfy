/** Optional values, used where the C code passes or returns a NULL-able thing. */
module Wrappers {
  datatype Option<+T> = None | Some(value: T)
}
