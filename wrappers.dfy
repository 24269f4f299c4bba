/** Optional values, for parses that can fail and searches that can miss. */
module Wrappers {
  datatype Option<+T> = None | Some(value: T)
}
