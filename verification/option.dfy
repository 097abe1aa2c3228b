/** The optional value shared by the parser and the event queue. */
module Optional {
  datatype Option<T> = None | Some(value: T)
}
