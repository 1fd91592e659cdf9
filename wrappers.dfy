/** Optional values, for lookups that throw std::out_of_range in the source. */
module Wrappers {
  datatype Option<+T> = None | Some(value: T)
}
