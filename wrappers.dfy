/** The answer of a modal dialog: None when the dialog was dismissed. */
module Wrappers {
  datatype Option<+T> = None | Some(value: T)
}
