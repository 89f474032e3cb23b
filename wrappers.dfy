/** Optional values: a JavaScript `null`/`undefined` slot, or a present value. */
module Wrappers {
  datatype Option<+T> = None | Some(value: T)
}
