/** An optional value, used for the callbacks a break policy may or may not have. */
module Wrappers {

  datatype Option<+T> = None | Some(value: T)
}
