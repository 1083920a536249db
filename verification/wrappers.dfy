/** Optional values: Python's `None` as a result. */
module Wrappers {

  datatype Option<+T> = None | Some(value: T)
}
