/** Optional values: the absent/present results of lookups and the null or non-null child of a removal. */
module Wrappers {
  datatype Option<+T> = None | Some(value: T)
}
