/** The Option type standing in for the source's nullable values (`T | null`). */
module Wrappers {

  datatype Option<+T> = None | Some(value: T)
}
