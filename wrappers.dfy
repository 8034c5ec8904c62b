/** Optional values, used where a C expression has no defined value. */
module Wrappers {
  datatype Option<+T> = None | Some(value: T)
}
