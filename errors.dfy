/**
 * The exceptions the RoboStream transport raises, as one closed datatype.
 * Only `APIError` is eligible for retry in `HttpClient.post`; the three server-reported
 * kinds derive from the SDK base class directly, and the envelope error is a model error.
 */
module Errors {
  import opened Json

  /** Why a response failed the envelope check (`InvalidEnvelopeError`). */
  datatype EnvelopeError =
    | NotAnObject
    | MissingFields(missing: set<string>)

  /** Why an `APIError` was raised. */
  datatype ApiCause =
    | NetworkError
    | InvalidJson
    | ServerError(message: Json)

  datatype Error =
    | PathError                          // ValueError: API path must start with '/'
    | APIError(cause: ApiCause)
    | ValidationError(message: Json)
    | PaymentError(message: Json)
    | ExecutionError(message: Json)
    | InvalidEnvelope(reason: EnvelopeError)
    | AttributeError                     // `payload.get` on an error body that is not an object

  /** `isinstance(e, APIError)`: the only kind `post` retries. */
  predicate IsAPIError(e: Error) {
    e.APIError?
  }
}
