/** Option type used for the source's "missing" values (NULL cells, failed parses). */
module Wrappers {
  datatype Option<+T> = None | Some(value: T)
}
