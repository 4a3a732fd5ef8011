/** The optional value that the model uses wherever the engine's arithmetic
    has no defined result (a division by a zero count). */
module Wrappers {
  datatype Option<+T> = None | Some(value: T)
}
