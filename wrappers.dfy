/** The optional value used for Kotlin's nullable `String?` receivers. */
module Wrappers {

  datatype Option<+T> = None | Some(value: T)
}
