/** The optional result of a parser: None where Go's parser returns an error. */
module Options {

  datatype Option<+T> = None | Some(value: T)
}
