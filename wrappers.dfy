/** Optional values. A missing cell of a price table (NaN in the original) is None. */
module Wrappers {
  datatype Option<+T> = None | Some(value: T)
}
