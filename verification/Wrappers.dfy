/** Optional values: a JavaScript `null`/`undefined` slot becomes `None`. */
module Wrappers {
  datatype Option<+T> = None | Some(value: T)
}
