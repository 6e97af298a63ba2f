/** An optional value, for the references the game state leaves null. */
module Options {
  datatype Option<T> = None | Some(value: T)
}
