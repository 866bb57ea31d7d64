/** The usual optional value; `None` models a nil Go pointer or an absent map entry. */
module Options {
  datatype Option<+T> = None | Some(value: T)
}
