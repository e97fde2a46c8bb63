/** Small optional-value datatype used for DOM elements that may be missing
    from the page and for values that may be absent from storage. */
module Wrappers {

  datatype Option<+T> = None | Some(value: T)
}
