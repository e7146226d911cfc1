/** A value that may be missing: a message not delivered, a report not sent, an attempt not refused. */
module Options {
  datatype Option<T> = None | Some(value: T)
}
