/** An optional value: the shape of a nullable column and of a query that may find no row. */
module Wrappers {
  datatype Option<+T> = None | Some(value: T)
}
