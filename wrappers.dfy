/** Optional values, used for the partial decoders and for per-field validation results. */
module Wrappers {

  datatype Option<+T> = None | Some(value: T)
}
