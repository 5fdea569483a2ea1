/** Optional values: a missing property, an absent array element or a failed fetch. */
module Wrappers {
  datatype Option<+T> = None | Some(value: T)
}
