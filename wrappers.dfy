/** Optional values, standing for the source's nullable pointers and handles. */
module Wrappers {

  datatype Option<+T> = None | Some(value: T)
}
