/**
 * `HttpClient` (`robostream/core/http.py`): path check, URL building, response handling
 * and error mapping, all run inside `retry(retries=2, backoff=0.5, retry_on=(APIError,))`.
 *
 * The network is a parameter: `send(request, k)` is what the k-th attempt of that request
 * brings back, either a transport exception or a status code with a body that may not decode.
 */
module Http {
  import opened Wrappers
  import opened Json
  import opened Errors
  import opened Envelopes
  import opened Serializer
  import opened Retries
  import opened Configuration

  /** The body of a received response: `resp.json()` either fails or yields a value. */
  datatype Body = Undecodable | Decoded(payload: Json)

  /** One attempt at the network: `requests.RequestException`, or a response. */
  datatype Transport = NetworkFailure | Received(status: int, body: Body)

  /** What is posted: the full URL and the JSON body. */
  datatype Request = Request(url: string, json: Json)

  const MaxRetries := 2
  const Backoff := 0.5

  predicate StartsWithSlash(path: string) {
    |path| > 0 && path[0] == '/'
  }

  /** `_raise_api_error`: the exception a failed status raises, chosen by the body's `error` field. */
  function RaiseApiError(payload: Json): (e: Error)
    // a body that is not an object has no `get`
    ensures !payload.JObj? ==> e == AttributeError
    ensures payload.JObj? ==>
              var f := payload.fields;
              var message := if Truthy(Get(f, "message")) then f["message"] else JStr("Request failed");
              && (e.ValidationError? <==> Get(f, "error") == JStr("validation_error"))
              && (e.PaymentError? <==> Get(f, "error") == JStr("payment_error"))
              && (e.ExecutionError? <==> Get(f, "error") == JStr("execution_error"))
              && (e.APIError? <==> Get(f, "error") !in KnownKinds)
              && (if e.APIError? then e.cause == ServerError(message) else e.message == message)
  {
    if !payload.JObj? then
      AttributeError
    else
      var error := Or(Get(payload.fields, "error"), JStr("unknown_error"));
      var message := Or(Get(payload.fields, "message"), JStr("Request failed"));
      if error == JStr("validation_error") then ValidationError(message)
      else if error == JStr("payment_error") then PaymentError(message)
      else if error == JStr("execution_error") then ExecutionError(message)
      else APIError(ServerError(message))
  }

  /** The discriminators the server reports for its own error kinds. */
  const KnownKinds: set<Json> := {JStr("validation_error"), JStr("payment_error"), JStr("execution_error")}

  /** `_handle_response` */
  function HandleResponse(status: int, body: Body): (r: Result<Envelope, Error>)
    // decoding comes first, so an undecodable body is an APIError whatever the status
    ensures body.Undecodable? ==> r == Failure(APIError(InvalidJson))
    ensures body.Decoded? && status >= 400 ==> r == Failure(RaiseApiError(body.payload))
    // the only success: status below 400 and a well-formed envelope, carried field for field
    ensures r.Success? <==>
              status < 400 && body.Decoded? && ParseEnvelope(body.payload).Success?
    ensures r.Success? ==> Fields(r.value) == ParseEnvelope(body.payload).value
    ensures status < 400 && body.Decoded? && ParseEnvelope(body.payload).Failure? ==>
              r == Failure(InvalidEnvelope(ParseEnvelope(body.payload).error))
  {
    match body
    case Undecodable => Failure(APIError(InvalidJson))
    case Decoded(payload) =>
      if status >= 400 then
        Failure(RaiseApiError(payload))
      else
        match ParseEnvelope(payload)
        case Failure(reason) => Failure(InvalidEnvelope(reason))
        case Success(parsed) => Success(FromFields(parsed))
  }

  /** The `_request` closure: one attempt, with a transport exception turned into an APIError. */
  function Attempt(t: Transport): (r: Result<Envelope, Error>)
    ensures t.NetworkFailure? ==> r == Failure(APIError(NetworkError))
    ensures t.Received? ==> r == HandleResponse(t.status, t.body)
    ensures r.Success? <==>
              t.Received? && t.status < 400 && t.body.Decoded? && ParseEnvelope(t.body.payload).Success?
  {
    match t
    case NetworkFailure => Failure(APIError(NetworkError))
    case Received(status, body) => HandleResponse(status, body)
  }

  /** An attempt that `post` retries: it raised an APIError. */
  predicate Retried(t: Transport) {
    Attempt(t).Failure? && IsAPIError(Attempt(t).error)
  }

  /**
   * Exactly these attempts are retried: a network failure, an undecodable body, and an error
   * status whose body is an object with no known discriminator. Server validation, payment
   * and execution errors, envelope errors and non-object error bodies are not.
   */
  lemma RetriedExactly(t: Transport)
    ensures Retried(t) <==>
              || t.NetworkFailure?
              || t.body.Undecodable?
              || (t.status >= 400 && t.body.payload.JObj? && Get(t.body.payload.fields, "error") !in KnownKinds)
  {
  }

  class HttpClient {
    const config: Config

    constructor(config: Config)
      ensures this.config == config
    {
      this.config := config;
    }

    /** `post(path, json)` */
    method Post(path: string, json: Json, send: (Request, nat) -> Transport)
      returns (r: Result<Envelope, Error>, attempts: nat, delays: seq<real>)
      // a bad path fails before any attempt
      ensures !StartsWithSlash(path) ==> r == Failure(PathError) && attempts == 0 && delays == []
      // otherwise the request goes to base URL + path, at most three times
      ensures StartsWithSlash(path) ==>
                var request := Request(config.baseUrl + path, json);
                && 1 <= attempts <= MaxRetries + 1
                && (forall k :: 0 <= k < attempts - 1 ==> Retried(send(request, k)))
                && r == Attempt(send(request, attempts - 1))
                && (Retried(send(request, attempts - 1)) ==> attempts == MaxRetries + 1)
      // sleeps of 0.5 s, then 1 s, between attempts
      ensures |delays| == (if attempts == 0 then 0 else attempts - 1)
      ensures forall k :: 0 <= k < |delays| ==> delays[k] == Backoff * (k + 1) as real
    {
      if !StartsWithSlash(path) {
        return Failure(PathError), 0, [];
      }
      var url := config.baseUrl + path;
      var request := Request(url, json);
      var sendOnce := (k: nat) => Attempt(send(request, k));
      var outcome;
      outcome, attempts, delays := Retry(sendOnce, MaxRetries, Backoff, IsAPIError);
      forall k | 0 <= k < attempts - 1
        ensures Retried(send(request, k))
      {
        assert sendOnce(k).Failure? && IsAPIError(sendOnce(k).error);
      }
      match outcome
      case Returned(envelope) =>
        r := Success(envelope);
      case Raised(e) =>
        r := Failure(e);
      case RaisedNone =>
        assert false;
      case SleepRejected =>
        assert false;
    }
  }
}
