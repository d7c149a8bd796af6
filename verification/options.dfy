/** The optional-value type shared by the loader and the switcher. */
module Options {
  datatype Option<T> = None | Some(value: T)
}
