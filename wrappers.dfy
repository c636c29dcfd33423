/** Optional values: a parse that can fail, a cell that can be absent. */
module Wrappers {
  datatype Option<+T> = None | Some(value: T)
}
