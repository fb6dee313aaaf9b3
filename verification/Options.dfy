/** The one option type of the project. */
module Options {

  datatype Option<+T> = None | Some(value: T)
}
