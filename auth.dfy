/** `Auth.headers` (`praxis/core/auth.py`): the request headers derived from a config. */
module Auth {
  import opened Wrappers
  import opened Configuration

  const ApiKeyHeader := "X-API-Key"
  const ContentTypeHeader := "Content-Type"

  /** Exactly two headers: the API key and the JSON content type. Recomputed per call. */
  function Headers(config: Config): (h: map<string, string>)
    ensures h.Keys == {ApiKeyHeader, ContentTypeHeader}
    ensures h[ApiKeyHeader] == config.apiKey
    ensures h[ContentTypeHeader] == "application/json"
  {
    map[ApiKeyHeader := config.apiKey, ContentTypeHeader := "application/json"]
  }

  /**
   * A client built from a resolved config always authenticates with a non-empty key: the
   * explicit one when given, else the one from the environment.
   */
  lemma HeadersCarryResolvedKey(v: Variant, apiKey: Option<string>, baseUrl: Option<string>, timeout: Option<real>,
                                env: map<string, string>)
    requires Resolve(v, apiKey, baseUrl, timeout, env).Success?
    ensures var h := Headers(Resolve(v, apiKey, baseUrl, timeout, env).value);
            h[ApiKeyHeader] != "" &&
            h[ApiKeyHeader] == if Given(apiKey) then apiKey.value else env[v.apiKeyVar]
  {
  }
}
