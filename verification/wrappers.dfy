/** The optional-value type used for Python's `None`-or-value returns and for
    parses that may raise `ValueError`. */
module Wrappers {

  datatype Option<+T> = None | Some(value: T)
}
