/** A value that may be missing, for the source's null pointers and out-of-band results. */
module Options {

  datatype Option<T> = None | Some(value: T)
}
