/** A value that may be missing: Go's comma-ok results and not-found errors. */
module Wrappers {
  datatype Option<+T> = None | Some(value: T)
}
