/** The optional value used wherever a Python expression may fail or yield nothing. */
module Options {

  datatype Option<T> = None | Some(value: T)

}
