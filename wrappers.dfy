/** The optional value used where the game returns "nothing yet" or "no move". */
module Wrappers {
  datatype Option<T> = None | Some(value: T)
}
