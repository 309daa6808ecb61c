/** Option type used for partial results: a record that may fail to decode,
    a file that may fail to open, an analyzer that may fail to start. */
module Wrappers {

  datatype Option<+T> = None | Some(value: T)
}
