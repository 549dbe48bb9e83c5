/** The usual Some/None wrapper, used for values the report may lack. */
module Options {

  datatype Option<+T> = None | Some(value: T)
}
