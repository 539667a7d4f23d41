/** The optional value returned by the row accessors (`Option<&[P]>` in the source). */
module Wrappers {
  datatype Option<+T> = None | Some(value: T)
}
