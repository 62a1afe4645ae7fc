/** Optional values, for lookups that may find nothing and parsers that may fail. */
module Wrappers {

  datatype Option<+T> = None | Some(value: T)
}
