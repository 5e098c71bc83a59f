/** The optional value used where the model has "nothing found". */
module Wrappers {

  datatype Option<+T> = None | Some(value: T)
}
