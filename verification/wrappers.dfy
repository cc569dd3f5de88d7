/** The optional value used for the game's `Option<...>` fields. */
module Wrappers {

  datatype Option<+T> = None | Some(value: T)

}
