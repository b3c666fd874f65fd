/** The optional-value datatype shared by the other modules: a nullable
    column, an absent JSON field or a missing row is `None`. */
module Wrappers {

  datatype Option<+T> = None | Some(value: T)
}
