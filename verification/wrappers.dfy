/** The optional value used for "a NULL pointer or a buffer" and for the
    OCaml `None | Some g` argument built by the callback trampoline. */
module Wrappers {

  datatype Option<T> = None | Some(value: T)
}
