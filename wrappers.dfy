/** The optional value used for the results the model takes as given. */
module Wrappers {

  /** Either nothing (a failed parse or lookup) or a value. */
  datatype Option<+T> = None | Some(value: T)
}
