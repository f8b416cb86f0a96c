/** The optional value that the linter's tree queries return (Python's `None` or a segment). */
module Wrappers {

  datatype Option<+T> = None | Some(value: T)
}
