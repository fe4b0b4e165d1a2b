/** General-purpose result wrappers shared by the other modules. */
module Wrappers {

  /** A value, or none where the source raises or asks again. */
  datatype Option<+T> = None | Some(value: T)
}
