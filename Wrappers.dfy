/** Option, the value that may be absent, shared by every module. */
module Wrappers {

  /** A value that may be absent: C#'s `null` and TypeScript's `null`. */
  datatype Option<+T> = None | Some(value: T)
}
