/** The optional value the session uses for a counter that may be unset (Ruby's nil). */
module Wrappers {

  datatype Option<+T> = None | Some(value: T)

}
