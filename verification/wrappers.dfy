/** Optional values, standing for the nullable columns and `None` returns of the system. */
module Wrappers {

  datatype Option<+T> = None | Some(value: T)
}
