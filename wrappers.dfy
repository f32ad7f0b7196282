/** The Java `null` of a boxed `Integer` or an absent object, as a value. */
module Wrappers {
  datatype Option<+T> = None | Some(value: T)
}
