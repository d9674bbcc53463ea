/** Optional values, used for results the C code signals through errno or NULL. */
module Wrappers {
  datatype Option<+T> = None | Some(value: T)
}
