/** Optional values: a C++ pointer that may be NULL, a terminator literal that may be absent. */
module Wrappers {

  datatype Option<+T> = None | Some(value: T)
}
