/** Small datatypes shared by the parser model. */
module Wrappers {
  datatype Option<+T> = None | Some(value: T)
}
