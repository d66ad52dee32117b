/** Values that may be absent: JavaScript's `null` for a date that has not been fixed yet. */
module Wrappers {

  datatype Option<+T> = None | Some(value: T)
}
