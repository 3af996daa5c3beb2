/** The optional value used where the source returns `undefined` or starts
    from an infinite sentinel. */
module Wrappers {

  datatype Option<+T> = None | Some(value: T)
}
