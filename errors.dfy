/** Fatal conditions of the server and the result type that carries them.
    In the C program every one of these ends the process through `panic`;
    here they are returned as values. */
module Errors {

  datatype Error =
    | NegativeSize   // make_client_buffer was asked for a negative initial size
    | ShortRead      // read returned a count other than the number of available bytes

  datatype Result<+T> = Success(value: T) | Failure(error: Error)
}
