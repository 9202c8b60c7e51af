/** A small optional-value datatype, used for the results of library calls
    the handler treats as oracles and for the datagram a request writes. */
module Wrappers {

  datatype Option<+T> = None | Some(value: T)
}
