/** A value that may be absent, as a missing key of a record is. */
module Wrappers {

  datatype Option<+T> = None | Some(value: T)
}
