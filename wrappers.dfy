/** The optional value the solver's result triple uses where the original returns `None`. */
module Wrappers {

  datatype Option<+T> = None | Some(value: T)
}
