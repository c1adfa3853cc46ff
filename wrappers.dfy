/** The optional value used for absent fields and for "no message". */
module Wrappers {

  datatype Option<+T> = None | Some(value: T)

}
