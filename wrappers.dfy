/** Optional values, standing for the C idiom of a null pointer or a "not found" result. */
module Wrappers {
  datatype Option<T> = None | Some(value: T)
}
