/** The one absent-or-present datatype every module shares. */
module Options {
  datatype Option<+T> = None | Some(value: T)
}
