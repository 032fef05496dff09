/** The optional-value datatype used where the game has "no value" cases. */
module Wrappers {

  datatype Option<+T> = None | Some(value: T)
}
