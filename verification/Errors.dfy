/** The failures the simulators can raise, and the result type that carries them. */
module Errors {

  /** The exceptions of the original program that the model keeps. */
  datatype Error =
    | DivisionByZero   // `tamanho // num_threads` with no threads
    | Overflow         // a length that does not fit the 8-byte prefix
    | Unpickling       // the received payload does not deserialise
    | ShapeMismatch    // a received board that is not `tamanho` x `tamanho`

  datatype Result<T> = Success(value: T) | Failure(error: Error)

  datatype Option<T> = None | Some(value: T)
}
