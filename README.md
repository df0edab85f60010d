# Praxis / RoboStream SDK core in Dafny

This project models the local core of the Praxis and RoboStream Python SDKs. Both are clients
for a remote robotics HTTP API. What they compute locally is modelled:

- **Assembly sequencing** (`praxis/api/assembly.py`). Kahn's algorithm orders the parts of an
  assembly so that each part comes after the listed parts it requires. It uses a FIFO queue
  and reports a cyclic dependency when parts are left over. `plan_sequence` turns part dicts
  into nodes, filling in defaults, and reports the sorted ids and the part count.
- **Envelope validation** (`robostream/core/serializer.py`). A decoded JSON value is accepted
  only when it is an object holding all six envelope keys. The result is its projection onto
  those keys.
- **Retry policy** (`praxis/core/retries.py`). A bounded attempt loop with linear backoff.
  Only eligible exceptions are retried.
- **Response handling** (`robostream/core/http.py`). `post` checks the path and builds the URL.
  Inside `retry(retries=2, backoff=0.5, retry_on=(APIError,))` it turns network failures into
  `APIError`, decodes the body, maps an error status and its `error` discriminator to an
  exception kind, and wraps a good body in an envelope.
- **Configuration** (`praxis/core/config.py`, `robostream/core/config.py`). The API key comes
  from the argument, then the environment; the base URL from the argument, then the
  environment, then a default, with trailing slashes stripped; the timeout defaults to 10.
  An argument left out is `None` in the model.
- **Small pieces**: the praxis auth header map, the RoboStream `Session` flag, and the
  praxis `Response` accessors.

Modules, one per component: `Wrappers` (Option/Result), `Json` (decoded JSON values with Python
truthiness), `Errors` (the exception taxonomy as one datatype), `Envelopes`, `Serializer`,
`Configuration`, `Auth`, `Retries`, `Http`, `Responses`, `Sessions`, `Assembly`.

Abstractions:

- The network is a parameter of `Http.HttpClient.Post`. `send(request, k)` is what the k-th
  attempt of a request brings back: a transport exception, or a status with a body that
  either fails to decode or decodes to a JSON value.
- `time.sleep` is recorded. `Retry` and `Post` return the delays they slept for, in order. A
  negative delay makes `time.sleep` raise `ValueError`, which `Retry` reports as its own outcome.
- `fn` in `retry` is a function from the attempt number to what that call returns or raises.
- `os.getenv` reads a map passed in as the environment.
- Python exceptions are `Failure` values of a `Result`. The server-reported kinds
  (`ValidationError`, `PaymentError`, `ExecutionError`) derive from the SDK base class and not
  from `APIError` (`robostream/exceptions.py:11-36`). So `Errors.IsAPIError` holds only for
  `APIError`, and only that kind is retried.

Behaviour of the code that is easy to misread, and that the model follows:

- An undecodable response body raises `APIError` (`robostream/core/http.py:57-60`). It is
  therefore retried like a network failure (`Http.RetriedExactly`), not treated as terminal.
- An error status whose `error` field is missing or unknown also raises `APIError`
  (`robostream/core/http.py:82`). It is retried as well.
- The envelope check accepts payloads with extra keys and drops them. It does not demand
  exactly six keys.
- `Response` in `praxis/models/response.py:12` takes only an envelope. The `Response(...)` call
  at `praxis/api/assembly.py:143` passes `data`, `cost`, `success` and `request_id` instead, so it
  raises `TypeError` inside the `try`. The handler's own `Response(...)` call at `:151` raises
  `TypeError` again, and nothing catches it. So every call of `plan_sequence` ends in
  `TypeError`: neither the plan nor the cycle message reaches a caller. The model reports what
  the code computes before that point, the plan or the cycle message (see Left out).
- With duplicate part ids, `graph` and `in_degree` merge the parts that share an id, and the
  sort can report a cycle where there is none. For `[A requires B, A, B]` it places B and A,
  then raises the cycle error because it placed two ids for three parts. The model requires
  distinct ids (see Left out).
- `Session` reads `self._client.physics` (and the others) on every access
  (`robostream/session.py:30-40`). The model copies the three attributes when the session is
  built. The two agree as long as the client's attributes are not reassigned, which the
  client never does after construction.
- `Responses.ResponseShowsPayload` wraps an envelope produced by the RoboStream
  `HandleResponse` in the praxis `Response`. The praxis transport that builds praxis envelopes
  is not part of this model, and neither is `praxis/models/envelope.py`: the model assumes the
  praxis envelope has the four attributes `Response` reads (`data`, `cost`, `request_id`,
  `success`, `praxis/models/response.py:17-29`) and reuses the RoboStream `Envelope` for it.

`robostream/core/retries.py`, `robostream/core/auth.py` and `robostream/models/response.py`
are not part of this model. `post` is assumed to use the retry semantics of
`praxis/core/retries.py`, and it returns the envelope rather than a RoboStream `Response`.

## Model

| member | source | states |
|---|---|---|
| Envelopes.Fields | robostream/models/envelope.py:6-17 | an envelope as a dict has exactly the six wire keys |
| Envelopes.FromFields | robostream/core/http.py:66 | `Envelope(**parsed)` from a six-key dict keeps every field's value |
| Serializer.ParseEnvelope | robostream/core/serializer.py:11-37 | accepted iff the payload is an object holding all six keys; a non-object fails as such; otherwise the error names exactly the missing keys; on success the result has exactly the six keys, each with the payload's own value |
| Serializer.ParseIdempotent | robostream/core/serializer.py:24-37 | parsing an already parsed result gives the same result |
| Serializer.ExtraKeysIgnored | robostream/core/serializer.py:24-37 | adding a key outside the six never changes the outcome |
| Serializer.EnvelopeRoundTrip | robostream/core/serializer.py:30-37 | every envelope written as an object parses back to itself |
| Configuration.RStripSlashes | praxis/core/config.py:17-21 | `rstrip("/")` gives a prefix with no trailing slash, and only slashes were removed |
| Configuration.RStripIdempotent | praxis/core/config.py:17-21 | stripping twice is stripping once |
| Configuration.Resolve | praxis/core/config.py:5-23 | succeeds iff a non-empty key is given or found in the environment; the given key wins; the base URL is the first non-empty of argument, environment and default, stripped of trailing slashes; the timeout is the argument, or 10.0 when it is left out |
| Configuration.PraxisConfig | praxis/core/config.py:11-23 | no key argument and no `PRAXIS_API_KEY` fails naming that variable; no URL anywhere gives the default |
| Configuration.RoboStreamConfig | robostream/core/config.py:12-24 | the same for `ROBOSTREAM_API_KEY` and `ROBOSTREAM_BASE_URL` |
| Auth.Headers | praxis/core/auth.py:8-12 | exactly two headers: `X-API-Key` is the config's key and `Content-Type` is `application/json` |
| Auth.HeadersCarryResolvedKey | praxis/core/auth.py:8-12 | a resolved config authenticates with a non-empty key, the explicit one when given, else the environment's |
| Retries.Retry | praxis/core/retries.py:5-23 | at most `retries + 1` calls; every call but the last failed eligibly; the last call's result or ineligible error is passed on at once; an eligible error is re-raised only with the budget spent; one sleep of `backoff * (k + 1)` after each failed call `k` that is retried; a negative budget makes no call; a negative backoff makes the first sleep raise, right after the first eligible failure |
| Http.Attempt | robostream/core/http.py:36-47 | a network failure becomes `APIError`; a received response goes through `_handle_response`, so the attempt succeeds iff the status is below 400 and the body decodes to a valid envelope |
| Http.RaiseApiError | robostream/core/http.py:69-82 | each known discriminator maps to its own kind, anything else to `APIError`; the message defaults to "Request failed"; a non-object body fails on `get` |
| Http.HandleResponse | robostream/core/http.py:56-67 | an undecodable body is `APIError` whatever the status; status 400 and above raises the mapped error; success iff status below 400 and a valid envelope, field for field |
| Http.RetriedExactly | robostream/core/http.py:44-60 | an attempt is retried iff it is a network failure, an undecodable body, or an error status without a known discriminator |
| Http.HttpClient.constructor | robostream/core/http.py:26-28 | the client keeps its config |
| Http.HttpClient.Post | robostream/core/http.py:30-54 | a bad path fails with no attempt; otherwise the request goes to base URL + path, at most three times, each retried attempt raised `APIError`, the last attempt's outcome is returned, and the sleeps are 0.5 and then 1 second |
| Responses.ResponseShowsPayload | praxis/models/response.py:12-29 | a response over a good envelope shows the server's `data`, `cost`, `request_id` and `success` |
| Sessions.Session.constructor | robostream/session.py:16-18 | a new session holds the client and is inactive |
| Sessions.Session.Enter | robostream/session.py:20-22 | entering activates the session and returns it |
| Sessions.Session.Exit | robostream/session.py:24-26 | exiting deactivates it and never suppresses an exception |
| Sessions.Scoped | robostream/session.py:16-40 | after a `with` block the session is inactive, suppressed nothing, and passes through the client's APIs |
| Assembly.InitialGraph | praxis/api/assembly.py:34-35 | one empty adjacency list and one zero in-degree for every listed id, and no other key |
| Assembly.BuildGraph | praxis/api/assembly.py:34-42 | `graph[x]` lists each part requiring listed `x`, once per mention, in input order; a part's in-degree counts its listed requirements |
| Assembly.Link | praxis/api/assembly.py:39-42 | one part's pass: each listed `r` it requires gains the part's id at the end of `graph[r]`, once per mention, and the part's in-degree grows by its listed requirements |
| Assembly.Roots | praxis/api/assembly.py:45 | the queue holds the parts with in-degree zero, each once, in input order |
| Assembly.Release | praxis/api/assembly.py:52-55 | each dependent loses one in-degree per edge; those reaching zero are appended behind the queue's unchanged front, each once, in the order of their last mention in `graph[current]` (`Fired`, `FiredInMentionOrder`) |
| Assembly.FiredInMentionOrder | praxis/api/assembly.py:52-55 | the released dependents are ordered by the position of their last mention among the edges |
| Assembly.Step | praxis/api/assembly.py:49-55 | one turn is first in, first out: the front id is placed, the rest of the queue keeps its order, the released dependents join at the back, and the loop invariants are kept |
| Assembly.Drain | praxis/api/assembly.py:48-55 | the placed ids are distinct listed parts in a valid order; every part left over waits for another part left over; the initial queue is placed first, in queue order |
| Assembly.Restore | praxis/api/assembly.py:60-62 | one node per placed id, namely the listed node carrying that id |
| Assembly.TopologicalSort | praxis/api/assembly.py:29-62 | on success the result is a permutation of the parts in which each listed requirement comes first, and it starts with the parts requiring no listed part, in input order; it fails iff some set of parts blocks itself; with no listed dependencies it returns the input unchanged |
| Assembly.BlockedMeansNoOrder | praxis/api/assembly.py:57-58 | a blocked set of parts admits no valid assembly order, so the failure is justified |
| Assembly.CycleIsBlocked | praxis/api/assembly.py:57-58 | the parts of a dependency cycle, a part requiring itself included, block each other, so the sort fails |
| Assembly.UnlistedRequirementIgnored | praxis/api/assembly.py:37-42 | a requirement naming an unlisted id changes nothing the graph build computes: the listed ids, every listed part's dependents and the part's in-degree stay the same, and so does which sets block, so it never makes the sort fail |
| Assembly.NodeOf | praxis/api/assembly.py:105-113 | a part keeps its id, is not installed, and gets `[]` when it has no `requires` |
| Assembly.BuildNodes | praxis/api/assembly.py:104-114 | one node per part, in order, with the part's id |
| Assembly.PlanSequence | praxis/api/assembly.py:85-138 | fails with the cycle message iff some set blocks; otherwise the sequence is the ids of a valid order of all parts, `part_count` is its length and the number of parts, the parts requiring no listed part come first in input order, the station is echoed, and the strategy is `optimize_for`, or "speed" when it is left out |

## Left out

- Floating-point work in `praxis/api/assembly.py`: `_calculate_kinematic_effort`, the
  `total_time` sum, the `optimize_for` scaling, the rounding of metrics, and
  `simulate_stress_test`. The plan payload keeps only `station_id`, `strategy`, `sequence` and
  `part_count`.
- The `Response(...)` wrapping in `plan_sequence` (`praxis/api/assembly.py:143-151`). Those
  calls do not match the `Response` constructor, so in the source every call of
  `plan_sequence` raises `TypeError`. The model reports the plan, or the cycle error's message,
  directly.
- Assembly.TopologicalSort: requires distinct part ids. With duplicate ids, the source's
  `graph` and `in_degree` merge the parts and can report a false cycle, as for
  `[A requires B, A, B]`. That behaviour is not modelled.
- Assembly.TopologicalSort: states that the parts requiring no listed part come first, in input
  order. Each turn of the loop is first in, first out (`Assembly.Step`, `Assembly.Release`).
  The contract does not give the position of every later part as a closed-form function of
  the input.
- Assembly.PlanSequence: requires distinct ids, and a part's `id` is always present. A part
  dict without `id` (an id of `None`) is not modelled.
- Assembly.PlanSequence: catches only the cycle error. Other exceptions from malformed part
  dicts are not modelled.
- Real I/O: `requests.post`, `time.sleep` and `os.getenv` are replaced by parameters and logs.
  Timeouts and the headers sent with each request are not modelled in `Http.HttpClient.Post`.
- Http.HttpClient.Post: returns the envelope, not a RoboStream `Response`. That class is not
  part of this model.
- The `get` method that `praxis/api/analytics.py` calls. The shown `HttpClient` has no such
  method.
- The domain wrappers (`praxis/api/*.py` other than assembly, `robostream/api/*.py`). They
  only build a literal payload for the remote server.
- The `Client` classes and package re-exports. They only wire components together.
- Exception messages are not modelled. Network errors carry no text, and
  `InvalidEnvelopeError` carries the missing keys rather than a formatted string.
- The `__repr__` of `Response`. It is string formatting only.
