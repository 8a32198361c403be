/** The optional value used wherever index.js returns `undefined`, `-1` or `NaN` for "nothing". */
module Wrappers {

  datatype Option<+T> = None | Some(value: T)
}
