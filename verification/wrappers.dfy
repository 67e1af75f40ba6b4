/** Optional values, used for results that may be missing. */
module Wrappers {

  /** An optional value: `Some(value)` or `None`. */
  datatype Option<+T> = None | Some(value: T)
}
