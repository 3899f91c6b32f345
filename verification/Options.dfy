// The result of a call that may halt the machine.
module Options {
  datatype Option<+T> = None | Some(value: T)
}
