/** The optional value used for a JavaScript `undefined` or a thrown exception. */
module Wrappers {

  datatype Option<+T> = None | Some(value: T)
}
