/** Values that may be absent: `undefined` or `null` on the JavaScript side. */
module Optional {

  datatype Option<+T> = None | Some(value: T)
}
