/** The optional value used for spreadsheet cells that are undefined or absent. */
module Wrappers {

  datatype Option<+T> = None | Some(value: T)

}
