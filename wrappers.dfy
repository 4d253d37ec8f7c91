/** The "not resolved" sentinel of the resolver (JavaScript null / undefined) as an option type. */
module Wrappers {
  datatype Option<+T> = None | Some(value: T)
}
