/** Failure-compatible result type for the operations that raise an exception
    in SteganosCL. */
module Results {

  /** The exceptions the encoding path of the program can raise. */
  datatype Error =
    | InvalidData       // the message read from the console is null or empty
    | IndexOutOfRange   // the encoder indexed the message past its end

  datatype Result<+T> = Success(value: T) | Failure(error: Error)

  /** A console line: `None` models a null string (end of input). */
  datatype Option<+T> = None | Some(value: T)
}
