/** The optional value shared by the other modules. For an argument of the
    service, `None` stands for a JavaScript value that is `undefined` or
    `null`. */
module Wrappers {

  datatype Option<T> = None | Some(value: T)
}
