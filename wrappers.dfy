/** A value that may be absent; used for Go's `error` result, where `nil` means success. */
module Wrappers {
  datatype Option<+T> = None | Some(value: T)
}
