/** A value that is either present or absent: an HTTP header, or a field of a
    JSON request body that is `undefined` when the client did not send it. */
module Options {

  datatype Option<+T> = None | Some(value: T)

}
