/** The optional value used where the TypeScript returns `undefined` for "nothing there". */
module Wrappers {

  datatype Option<+T> = None | Some(value: T)
}
