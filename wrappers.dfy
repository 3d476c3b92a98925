/** The optional value that stands for a nullable column or a query whose `data` came back null. */
module Wrappers {

  datatype Option<+T> = None | Some(value: T)
}
