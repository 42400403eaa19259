/** The optional value used wherever the roster's JavaScript produces
    "no value" (an empty id, a string parseInt cannot read). */
module Wrappers {

  datatype Option<+T> = None | Some(value: T)
}
