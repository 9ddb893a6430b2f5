/** Optional values: the model's stand-in for C#'s `out`-parameter lookups and nullable results. */
module Wrappers {
  datatype Option<+T> = None | Some(value: T)
}
