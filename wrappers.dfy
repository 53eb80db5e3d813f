/** The optional value used for the record's optional fields and the storage entry. */
module Wrappers {

  datatype Option<+T> = None | Some(value: T)
}
