/** The optional-value type the model uses for "no reply" and "does not parse". */
module Wrappers {

  datatype Option<+T> = None | Some(value: T)
}
