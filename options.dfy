/** Absence of a value: the model of a Java `null` result. */
module Options {
  datatype Option<+T> = None | Some(value: T)
}
