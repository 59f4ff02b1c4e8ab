/** The optional value used throughout the model: JavaScript's `undefined`/`null`
    and SQL's NULL are both `None`. */
module Wrappers {

  datatype Option<+T> = None | Some(value: T)
}
