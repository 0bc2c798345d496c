/** Optional values, used for "an error, if there was one". */
module Wrappers {
  datatype Option<+T> = None | Some(value: T)
}
