/** Small failure-carrying datatypes shared by the other modules. */
module Wrappers {

  datatype Option<+T> = None | Some(value: T)

  /** The way the modelled C++ code reports a misuse that is not a
      precondition: a thrown `std::logic_error`. */
  datatype Error = LogicError(what: string)

  datatype Result<+T> = Ok(value: T) | Err(error: Error)
}
