/** Optional values: JavaScript's `null`, `undefined` and `NaN` where the source tests for them. */
module Wrappers {

  datatype Option<+T> = None | Some(value: T)
}
