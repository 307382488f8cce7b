/** The optional value used for `T | null` and for a missing map key. */
module Wrappers {

  datatype Option<+T> = None | Some(value: T)

}
