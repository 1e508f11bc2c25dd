/** The two result types shared by every module. */
module Wrappers {

  /** Go's nil-or-pointer fields and comma-ok lookups. */
  datatype Option<+T> = None | Some(value: T)

  /** Go's (value, error) returns; the error carries no text here. */
  datatype Result<+T> = Ok(value: T) | Err
}
