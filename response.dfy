/** `Response` (`praxis/models/response.py`): a read-only view over one envelope. */
module Responses {
  import opened Json
  import opened Envelopes
  import opened Http

  datatype Response = Response(envelope: Envelope) {

    function Data(): Json {
      envelope.data
    }

    function Cost(): Json {
      envelope.cost
    }

    function RequestId(): Json {
      envelope.requestId
    }

    function Success(): Json {
      envelope.success
    }
  }

  /**
   * A response built from a successful HTTP answer shows exactly the server's values for
   * `data`, `cost`, `request_id` and `success`.
   */
  lemma ResponseShowsPayload(status: int, payload: Json)
    requires HandleResponse(status, Decoded(payload)).Success?
    ensures payload.JObj?
    ensures var resp := Response(HandleResponse(status, Decoded(payload)).value);
            && resp.Data() == payload.fields["data"]
            && resp.Cost() == payload.fields["cost"]
            && resp.RequestId() == payload.fields["request_id"]
            && resp.Success() == payload.fields["success"]
  {
    var e := HandleResponse(status, Decoded(payload)).value;
    assert Fields(e)["data"] == e.data;
    assert Fields(e)["cost"] == e.cost;
    assert Fields(e)["request_id"] == e.requestId;
    assert Fields(e)["success"] == e.success;
  }
}
