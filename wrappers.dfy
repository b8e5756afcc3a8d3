/** Optional values: JavaScript's `null` / `undefined` and absent results. */
module Wrappers {

  datatype Option<+T> = None | Some(value: T)
}
