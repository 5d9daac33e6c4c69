/** Optional values, used for nullable pointers and for slots left unbound. */
module Wrappers {
  datatype Option<+T> = None | Some(value: T)
}
