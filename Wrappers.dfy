/** Optional values, used wherever the source returns a null pointer or an error code. */
module Wrappers {
  datatype Option<T> = None | Some(value: T)
}
