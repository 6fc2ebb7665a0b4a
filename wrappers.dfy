/** Optional values: a JSON field that is absent or null, a SQL column that holds NULL. */
module Wrappers {

  datatype Option<+T> = None | Some(value: T)
}
