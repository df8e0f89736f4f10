/** The usual Some/None wrapper, used for Python's `None` and for `dict.get`. */
module Optional {
  datatype Option<+T> = None | Some(value: T)
}
