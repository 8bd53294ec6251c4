/** The optional value used where the script reads something that may be absent. */
module Wrappers {

  datatype Option<+T> = None | Some(value: T)
}
