/** Optional values, for a slot that may not exist and a call that may not
    be pending. */
module Wrappers {
  datatype Option<T> = None | Some(value: T)
}
