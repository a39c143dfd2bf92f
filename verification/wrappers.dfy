/** The optional value the TypeScript code expresses with `undefined`. */
module Wrappers {
  datatype Option<+T> = None | Some(value: T)
}
