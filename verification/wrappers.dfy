/** The optional-value datatype used wherever the component reads a value that
    may be absent: a browser-storage slot, an optional JSON field, a lookup in a
    plain object that yields `undefined`, a remote call that may be rejected. */
module Wrappers {

  datatype Option<+T> = None | Some(value: T)
}
