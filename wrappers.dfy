/** The optional value of the scripts' keyword arguments (`None` or a value). */
module Wrappers {

  datatype Option<+T> = None | Some(value: T)
}
