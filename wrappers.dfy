/** Optional values, for lookups that may find nothing (a `fetchone()` that returns None). */
module Wrappers {

  datatype Option<+T> = None | Some(value: T)
}
