/** The optional value used wherever the program returns "nothing found". */
module Wrappers {

  datatype Option<+T> = None | Some(value: T)
}
