/** The optional value the source expresses with Rust's `Option`. */
module Options {

  datatype Option<+T> = None | Some(value: T)
}
