/** The optional value used where the source returns `null` or `-1`. */
module Options {

  datatype Option<+T> = None | Some(value: T)

}
