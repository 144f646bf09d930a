/** The optional value used where the source has `null` or an unparsable input. */
module Wrappers {

  datatype Option<+T> = None | Some(value: T)
}
