/** The option type used where the source returns -1, a null pointer or nothing. */
module Wrappers {
  datatype Option<+T> = None | Some(value: T)
}
