/** The optional value used for "no hit". */
module Options {

  datatype Option<T> = None | Some(value: T)
}
