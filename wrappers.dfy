/** Optional values: JavaScript's `undefined` / `null` and the result of `Array.prototype.find`. */
module Wrappers {

  datatype Option<+T> = None | Some(value: T)
}
