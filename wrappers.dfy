/** Optional values, standing for the source's nullable out-pointers. */
module Wrappers {

  datatype Option<+T> = None | Some(value: T)
}
