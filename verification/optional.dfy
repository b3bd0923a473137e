/** The usual optional value, standing in for JavaScript's `T | null`. */
module Optional {

  datatype Option<+T> = None | Some(value: T)
}
