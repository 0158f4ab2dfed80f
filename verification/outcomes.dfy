/** Error values for the exceptions the spectrum utilities raise, and a
    Result type that carries either a value or one of those errors. */
module Outcomes {

  /** The Python exceptions that can escape the modelled operations. */
  datatype Error =
    | NotImplemented(message: string)   // NotImplementedError raised explicitly
    | IndexError                        // indexing past the end of a list or array
    | ValueError(message: string)       // numpy refusing an empty reduction

  datatype Result<T> = Ok(value: T) | Err(error: Error)
}
