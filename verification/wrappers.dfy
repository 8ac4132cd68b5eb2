/** The optional-value datatype used for every `?:` field and every
    `undefined`-or-value result of the menu model. */
module Wrappers {

  datatype Option<+T> = None | Some(value: T)
}
