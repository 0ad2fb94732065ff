/** The optional value used for the food cell, which is absent when the board is full. */
module Wrappers {

  datatype Option<+T> = None | Some(value: T)
}
