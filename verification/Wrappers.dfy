/** An optional value: the source's optionals, and exceptions that carry no data. */
module Wrappers {
  datatype Option<+T> = None | Some(value: T)
}
