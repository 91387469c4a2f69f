/** Failure-compatible values shared by the model: a nullable reference is an
    Option, and a call that can throw returns a Result naming the exception. */
module Wrappers {

  /** None stands for a .NET null reference. */
  datatype Option<+T> = None | Some(value: T)

  /** The .NET exceptions raised by the modelled code, with the parameter name
      each one carries. */
  datatype Error =
    | ArgumentNull(param: string)
    | ArgumentOutOfRange(param: string)
    | InvalidArgument(param: string)

  datatype Result<+T> = Ok(value: T) | Err(error: Error)
}
