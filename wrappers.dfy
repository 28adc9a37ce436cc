/** The optional-value wrapper used for JavaScript's `undefined`/`null`
    and for readers that may fail. */
module Wrappers {

  datatype Option<+T> = None | Some(value: T)
}
