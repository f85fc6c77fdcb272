/** Optional values: a JavaScript `undefined` where the source allows one. */
module Wrappers {
  datatype Option<+T> = None | Some(value: T)
}
