/** The optional value used wherever the source has `T | null` or a missing key. */
module Wrappers {

  datatype Option<+T> = None | Some(value: T)

}
