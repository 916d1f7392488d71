/** A value or none: the model of a pointer that may be null, and of a result that may be missing. */
module Options {

  datatype Option<+T> = None | Some(value: T)
}
