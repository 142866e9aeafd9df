/** A JavaScript value that may be `undefined`/`null`: the payload fields a client may omit. */
module Wrappers {

  datatype Option<+T> = None | Some(value: T)
}
