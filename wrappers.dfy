/** Optional values, used where the Go code returns a value together with an
    `ok` flag: `Some(v)` is `(v, true)` and `None` is `(nil, false)`. */
module Wrappers {

  datatype Option<+T> = None | Some(value: T)
}
