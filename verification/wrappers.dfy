/** The optional value used wherever the gateway's JavaScript uses `null`
    or `undefined` for "no value". */
module Wrappers {

  datatype Option<+T> = None | Some(value: T)
}
