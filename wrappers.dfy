/** Option, standing for Go's nil-or-value returns (a nil `error` is `None`). */
module Wrappers {
  datatype Option<+T> = None | Some(value: T)
}
