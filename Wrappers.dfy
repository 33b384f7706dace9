/** Optional values, used for JavaScript's `undefined` and for a `NaN` number. */
module Wrappers {

  datatype Option<+T> = None | Some(value: T)
}
