/** The optional value used where the source reads something that may be absent:
    a file that could not be read, a line that was not found. */
module Wrappers {

  datatype Option<+T> = None | Some(value: T)
}
