/** Small shared datatypes: an optional value, and the answer to a yes/no question. */
module Wrappers {

  /** A value that may be absent: Python's `None` or a value. */
  datatype Option<+T> = None | Some(value: T)
}

module Prompt {

  /** The button the user presses in a Yes/No confirmation box. */
  datatype Answer = Yes | No
}
