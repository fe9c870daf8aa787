/** The optional value used for fetch outcomes, JSON keys that may be absent and failed routes. */
module Wrappers {

  datatype Option<+T> = None | Some(value: T)
}
