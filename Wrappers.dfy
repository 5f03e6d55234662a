/** The conventional optional value: `None` stands for JavaScript's `null`/`undefined`
    or for "no match", depending on where it is used. */
module Wrappers {
  datatype Option<+T> = None | Some(value: T)
}
