/** Types shared by all components. */
module Base {

  datatype Option<+T> = None | Some(value: T)
}
