/** The optional value shared by the front-end and back-end models: `None` stands for
    JavaScript's `null`/`undefined` where a value may be missing. */
module Wrappers {

  datatype Option<+T> = None | Some(value: T)
}
