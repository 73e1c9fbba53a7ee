/** Optional values, used for the null results and failure returns of the modelled code. */
module Wrappers {
  datatype Option<+T> = None | Some(value: T)
}
