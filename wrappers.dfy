/** Optional values: a query parameter that is absent or does not parse is None. */
module Wrappers {

  datatype Option<+T> = None | Some(value: T)
}
