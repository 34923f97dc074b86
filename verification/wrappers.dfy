/** Optional values: a missing cell, an absent key, a column that was not found. */
module Wrappers {

  datatype Option<+T> = None | Some(value: T)
}
