/** Option and Result, and the kinds of exception the pagination engine lets escape. */
module Wrappers {

  datatype Option<+T> = None | Some(value: T)

  /** The exceptions that can leave `get_next_page` (and so `generator`). */
  datatype Error =
    | UserNotFound    // the timeline's user is absent (error code 50, "GenericUserNotFound")
    | KeyError        // a key the code reads without a guard is missing from the response
    | IndexError      // `next_results` holds no '=' so `split("=")[1]` fails
    | TransportError  // the requester itself failed

  datatype Result<+T> = Ok(value: T) | Err(error: Error)
}
