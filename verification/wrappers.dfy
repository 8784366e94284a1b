/** The optional result returned by the line parser: `Some` carries a value, `None` means "no entry". */
module Wrappers {

  datatype Option<+T> = None | Some(value: T)
}
