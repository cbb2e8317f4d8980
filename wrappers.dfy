/** The optional value used for JavaScript's `undefined` and for "no diff". */
module Wrappers {

  datatype Option<+T> = None | Some(value: T)

}
