/** Optional values: a query parameter that may be absent, a parse that may fail. */
module Wrappers {

  datatype Option<+T> = None | Some(value: T)

}
