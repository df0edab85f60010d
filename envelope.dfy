/** The six-field response envelope (`robostream/models/envelope.py`). */
module Envelopes {
  import opened Json

  /** Field values are carried as decoded, without type checks. */
  datatype Envelope = Envelope(
    success: Json,
    data: Json,
    error: Json,
    message: Json,
    cost: Json,
    requestId: Json)

  const RequiredFields: set<string> := {"success", "data", "error", "message", "cost", "request_id"}

  /** The envelope as the dict of its six fields, keyed by their wire names. */
  function Fields(e: Envelope): (m: map<string, Json>)
    ensures m.Keys == RequiredFields
  {
    map["success" := e.success, "data" := e.data, "error" := e.error,
        "message" := e.message, "cost" := e.cost, "request_id" := e.requestId]
  }

  /** `Envelope(**parsed)`: keyword construction from a dict holding exactly the six fields. */
  function FromFields(m: map<string, Json>): (e: Envelope)
    requires m.Keys == RequiredFields
    ensures Fields(e) == m
  {
    Envelope(m["success"], m["data"], m["error"], m["message"], m["cost"], m["request_id"])
  }
}
