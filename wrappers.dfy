/** The optional value the model uses where the firmware returns a null
    pointer, a -1 index or nothing at all. */
module Wrappers {
  datatype Option<T> = None | Some(value: T)
}
