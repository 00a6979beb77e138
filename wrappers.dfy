/** The optional value used where the file-system layer answers "nothing". */
module Wrappers {
  datatype Option<+T> = None | Some(value: T)
}
