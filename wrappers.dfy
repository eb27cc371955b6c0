/** Optional values, for the C functions that signal failure with NULL or 0. */
module Wrappers {
  datatype Option<T> = None | Some(value: T)
}
