/** The optional value shared by the other modules (a C pointer that may be NULL). */
module Options {
  datatype Option<+T> = None | Some(value: T)
}
