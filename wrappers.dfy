/** Option type for values that may be absent (a missing JSON field, a failed parse). */
module Wrappers {

  datatype Option<+T> = None | Some(value: T)

}
