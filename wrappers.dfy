/** The optional value used for "maybe a packet" and "maybe an error". */
module Wrappers {

  datatype Option<+T> = None | Some(value: T)
}
