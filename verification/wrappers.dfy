/** The optional value used wherever the page script yields `undefined`,
    `NaN` or "no match" instead of a value. */
module Wrappers {

  datatype Option<+T> = None | Some(value: T)
}
