/** A value that may be missing, for operations whose source code can end without producing a result. */
module Optional {

  datatype Option<+T> = None | Some(value: T)

}
