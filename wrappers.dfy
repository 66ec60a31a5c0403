/** The optional-value wrapper used for the source's `X | None` fields. */
module Wrappers {

  datatype Option<+T> = None | Some(value: T)
}
