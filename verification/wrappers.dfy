/** Optional values, for the partial decoders. */
module Wrappers {

  datatype Option<+T> = None | Some(value: T)
}
