/** The optional value used for "the text did not parse" and "no alarm is due". */
module Wrappers {
  datatype Option<+T> = None | Some(value: T)
}
