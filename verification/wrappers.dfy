/** An optional value, used where the Java returns a sentinel or nothing. */
module Wrappers {
  datatype Option<+T> = None | Some(value: T)
}
