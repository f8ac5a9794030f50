/** The optional value used for Go's `(value, error)` pairs whose error carries no payload. */
module Wrappers {

  datatype Option<+T> = None | Some(value: T)
}
