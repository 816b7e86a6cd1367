/** Optional values, for the partial inverses the model uses to state round trips. */
module Wrappers {
  datatype Option<+T> = None | Some(value: T)
}
