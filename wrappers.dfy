/** Option and Result: the error returns of the Go source become values. */
module Wrappers {

  datatype Option<+T> = None | Some(value: T)

  datatype Result<+T, +E> = Success(value: T) | Failure(error: E) {
    predicate IsFailure() { Failure? }

    function PropagateFailure<U>(): Result<U, E>
      requires Failure?
    {
      Failure(error)
    }

    function Extract(): T
      requires Success?
    {
      value
    }
  }
}

/** The ways the modelled code can fail. */
module Errors {

  datatype Error =
    | CorruptBase64            // base64.CorruptInputError
    | InvalidEscape            // url.EscapeError from QueryUnescape
    | IndexOutOfRange          // a Go runtime panic on a slice index
    | MalformedDocument        // goquery could not read the SAML document
    | MissingTenantId          // log.Fatal on an empty tenant identifier
    | Collaborator(message: string) // an error returned by code outside the model
}
