/** Optional values: pandas' missing cells (NaN / None) are `None`. */
module Wrappers {

  datatype Option<+T> = None | Some(value: T)
}
