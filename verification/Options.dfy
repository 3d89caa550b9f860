/** The usual optional value, used for NULL pointers and for the failure results of the C and
    Rust functions. */
module Options {
  datatype Option<+T> = None | Some(value: T)
}
