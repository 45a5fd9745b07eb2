/** Optional values, used where the program uses null, -1 or a zero handle. */
module Wrappers {
  datatype Option<+T> = None | Some(value: T)
}
