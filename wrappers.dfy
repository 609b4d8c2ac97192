/** A value that may be absent: Go's nil for an `error` or a `Grr`. */
module Wrappers {

  datatype Option<+T> = None | Some(value: T)
}
