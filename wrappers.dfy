/** The Option type used for values that pandas may report as missing. */
module Wrappers {
  datatype Option<+T> = None | Some(value: T)
}
