/** Small failure-compatible helper type shared by the accordion modules. */
module Wrappers {

  /** A value that may be absent: JavaScript's `undefined`/`null` or "not found". */
  datatype Option<+T> = None | Some(value: T)
}
