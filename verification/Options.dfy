/** A result that may be missing, for the source's null pointers and None. */
module Options {

  datatype Option<T> = None | Some(value: T)
}
