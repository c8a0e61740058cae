/** The optional-value datatype used by the scanners and the request handler. */
module Wrappers {
  datatype Option<+T> = None | Some(value: T)
}
