/** The optional value used for a missing table and for the None cells that pad a short row. */
module Wrappers {
  datatype Option<+T> = None | Some(value: T)
}
