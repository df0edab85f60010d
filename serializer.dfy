/** `Serializer.parse_envelope`: validate a decoded payload and project it onto the envelope fields. */
module Serializer {
  import opened Wrappers
  import opened Json
  import opened Errors
  import opened Envelopes

  /**
   * Accepts only an object holding every required field; the result holds exactly those
   * fields, each with the payload's own value, and drops every other key.
   */
  function ParseEnvelope(payload: Json): (r: Result<map<string, Json>, EnvelopeError>)
    ensures r.Success? <==> payload.JObj? && RequiredFields <= payload.fields.Keys
    ensures !payload.JObj? ==> r == Failure(NotAnObject)
    ensures payload.JObj? && r.Failure? ==>
              r.error == MissingFields(RequiredFields - payload.fields.Keys) && r.error.missing != {}
    ensures r.Success? ==> r.value.Keys == RequiredFields
    ensures r.Success? ==> forall k :: k in RequiredFields ==> r.value[k] == payload.fields[k]
  {
    if !payload.JObj? then
      Failure(NotAnObject)
    else
      var missing := RequiredFields - payload.fields.Keys;
      if missing != {} then
        Failure(MissingFields(missing))
      else
        var p := payload.fields;
        assert forall k :: k in RequiredFields ==> k in p by {
          forall k | k in RequiredFields ensures k in p { assert k !in missing; }
        }
        Success(map["success" := p["success"], "data" := p["data"], "error" := p["error"],
                    "message" := p["message"], "cost" := p["cost"], "request_id" := p["request_id"]])
  }

  /** Parsing an already parsed result gives it back unchanged. */
  lemma ParseIdempotent(payload: Json)
    requires ParseEnvelope(payload).Success?
    ensures ParseEnvelope(JObj(ParseEnvelope(payload).value)) == ParseEnvelope(payload)
  {
    var m := ParseEnvelope(payload).value;
    var m' := ParseEnvelope(JObj(m)).value;
    assert m'.Keys == m.Keys;
    assert forall k :: k in m ==> m'[k] == m[k];
  }

  /** Keys other than the six never change the outcome, accepted or not. */
  lemma ExtraKeysIgnored(fields: map<string, Json>, key: string, v: Json)
    requires key !in RequiredFields
    ensures ParseEnvelope(JObj(fields[key := v])) == ParseEnvelope(JObj(fields))
  {
    var with := fields[key := v];
    assert RequiredFields - with.Keys == RequiredFields - fields.Keys;
    if RequiredFields <= fields.Keys {
      var a := ParseEnvelope(JObj(with)).value;
      var b := ParseEnvelope(JObj(fields)).value;
      assert a.Keys == b.Keys;
      assert forall k :: k in a ==> a[k] == b[k];
    }
  }

  /** Every envelope survives the wire: serialised as an object, it parses back to itself. */
  lemma EnvelopeRoundTrip(e: Envelope)
    ensures ParseEnvelope(JObj(Fields(e))).Success?
    ensures FromFields(ParseEnvelope(JObj(Fields(e))).value) == e
  {
    var m := ParseEnvelope(JObj(Fields(e))).value;
    assert m.Keys == Fields(e).Keys;
    assert forall k :: k in m ==> m[k] == Fields(e)[k];
    assert m == Fields(e);
  }
}
