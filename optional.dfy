/** An optional value: used for the home loan that may be absent and for
    text fields that may fail to parse. */
module Optional {
  datatype Option<+T> = None | Some(value: T)
}
