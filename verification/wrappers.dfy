/** The optional-value datatype used wherever the screen's code holds a value
    that may be `null` (the bound product, the panel mode, a response body). */
module Wrappers {

  datatype Option<+T> = None | Some(value: T)
}
