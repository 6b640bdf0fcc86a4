/** The optional value used for nullable columns and for absent form fields. */
module Wrappers {

  datatype Option<+T> = None | Some(value: T)
}
