/** Optional values: a missing table cell, an absent requested number. */
module Wrappers {
  datatype Option<+T> = None | Some(value: T)
}
