/** A value that may be absent: a numeral that does not parse has no descriptor. */
module Wrappers {
  datatype Option<+T> = None | Some(value: T)
}
