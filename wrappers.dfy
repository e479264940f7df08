/** Optional values: a JavaScript `null`/`undefined` or a missing request field is `None`. */
module Wrappers {
  datatype Option<+T> = None | Some(value: T)
}
