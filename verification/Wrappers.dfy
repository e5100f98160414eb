/** The optional value used wherever the Go code returns a row or "not found". */
module Wrappers {
  datatype Option<+T> = None | Some(value: T)
}
