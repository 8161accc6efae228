/** The optional value used by the email splitter and by the session
    store (a key that may be absent). */
module Options {
  datatype Option<T> = None | Some(value: T)
}
