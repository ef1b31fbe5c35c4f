/** Option, for the places where the plugin returns `undefined`/`null` or nothing at all. */
module Wrappers {
  datatype Option<+T> = None | Some(value: T)
}
