/** The conventional optional value: what a form submission emits, if anything. */
module Wrappers {
  datatype Option<+T> = None | Some(value: T)
}
