/** Optional values, used for the falsy results of the application's helpers. */
module Wrappers {
  datatype Option<+T> = None | Some(value: T)
}
