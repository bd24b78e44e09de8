/** The optional value shared by the models of this project. */
module Options {

  datatype Option<+T> = None | Some(value: T)
}
