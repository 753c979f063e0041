/** The optional-value datatype used for values the component may not have
    yet (the pagination metadata) or may fail to parse (the bulk input). */
module Wrappers {

  datatype Option<+T> = None | Some(value: T)

}
