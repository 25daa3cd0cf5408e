/** The error values of the fetcher and the two wrappers that carry them.
    Each `Error` constructor stands for one kind of Go `error` value that
    main.go creates or passes on; wrapping with `%w` becomes a constructor
    holding the wrapped cause. */
module Failures {

  datatype Option<+T> = None | Some(value: T)

  datatype Result<+T> = Success(value: T) | Failure(error: Error)

  datatype Error =
      /** The combined credential string has no ':' separator. */
    | InvalidCredentialFormat
      /** One HTTP attempt failed with an error whose text mentions an
          exceeded deadline (client timeout or context deadline). */
    | DeadlineExceeded
      /** One HTTP attempt failed in any other way: building the request,
          the transport, or reading the body. */
    | Transport
      /** The server answered with a status code of 500 or more. */
    | Unavailable(status: int)
      /** The server answered with a status code from 400 to 499. */
    | ClientError(status: int)
      /** The error of the cancellation context, seen at a check point. */
    | ContextErr
      /** The retry budget was spent; holds the last attempt's error. */
    | Exhausted(last: Error)
      /** A response body could not be decoded as the expected JSON shape. */
    | DecodeError
      /** Requesting a page of the program listing failed. */
    | PageRequestFailed(cause: Error)
      /** Fetching or decoding the scope of one program failed. */
    | HandleFailed(handle: string, cause: Error)
}
