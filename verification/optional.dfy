/** A value that JavaScript may leave `null` or `undefined`. */
module Optional {

  datatype Option<+T> = None | Some(value: T)

}
