/** The optional value the loader's queries return where JavaScript returns
    `undefined`, and that the header parser returns where it throws. */
module Wrappers {

  datatype Option<+T> = None | Some(value: T)
}
