/** The Option type used for values that may be absent: an unresolved column,
    a missing spreadsheet cell, a malformed encoded string. */
module Wrappers {

  datatype Option<+T> = None | Some(value: T)

}
