/** A value that may be missing: the null pointers and empty functions of the C++ sources. */
module Options {

  datatype Option<+T> = None | Some(value: T)
}
