/** Optional values, for state that the C program leaves uninitialised until an event sets it. */
module Wrappers {
  datatype Option<+T> = None | Some(value: T)
}
