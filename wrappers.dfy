/** The optional value used where the Kotlin code returns a nullable (`String?`). */
module Wrappers {
  datatype Option<+T> = None | Some(value: T)
}
