/** Optional results, for the source's null pointers and missing values. */
module Wrappers {
  datatype Option<+T> = None | Some(value: T)
}
