/** A value that may be absent: the saved slot, the saved matrix, the image reference. */
module Optional {

  datatype Option<+T> = None | Some(value: T)

}
