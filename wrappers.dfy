/** Optional results, for the selectors that may have no move to offer. */
module Wrappers {

  datatype Option<+T> = None | Some(value: T)
}
