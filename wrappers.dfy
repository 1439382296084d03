/** Optional values: a query that may return no row. */
module Wrappers {
  datatype Option<+T> = None | Some(value: T)
}
