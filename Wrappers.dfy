/** Optional values: `None` plays the part of a null reference. */
module Wrappers {
  datatype Option<+T> = None | Some(value: T)
}
