/** Optional values: Python's "a value or None" at the level of whole results. */
module Wrappers {

  datatype Option<+T> = None | Some(value: T)
}
