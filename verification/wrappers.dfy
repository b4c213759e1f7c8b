/** Optional values, standing in for JavaScript's `null` / `undefined` / `-1` sentinels. */
module Wrappers {

  datatype Option<+T> = None | Some(value: T)
}
