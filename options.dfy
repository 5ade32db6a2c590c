/** The optional value used for the scripts' `None` defaults and failed matches. */
module Options {
  datatype Option<+T> = None | Some(value: T)
}
