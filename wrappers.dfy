/** Optional values, used for searches that may find nothing and for
    operations of the source that may raise. */
module Wrappers {
  datatype Option<+T> = None | Some(value: T)
}
