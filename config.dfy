/**
 * `Config.__init__` of both SDK variants (`praxis/core/config.py`, `robostream/core/config.py`).
 * They differ only in the names of their environment variables, so one resolution function
 * takes those names; the process environment is passed in as a map.
 */
module Configuration {
  import opened Wrappers

  datatype Config = Config(apiKey: string, baseUrl: string, timeout: real)

  /** The `ValueError` raised when no API key is found; it names the variable to set. */
  datatype ConfigError = MissingApiKey(variable: string)

  /** The environment variables one SDK variant reads. */
  datatype Variant = Variant(apiKeyVar: string, baseUrlVar: string)

  const Praxis := Variant("PRAXIS_API_KEY", "PRAXIS_BASE_URL")
  const RoboStream := Variant("ROBOSTREAM_API_KEY", "ROBOSTREAM_BASE_URL")

  const DefaultBaseUrl := "http://localhost:8000"

  /** The `timeout` a caller gets by leaving the argument out. */
  const DefaultTimeout := 10.0

  /** Truthiness of an optional string argument or `os.getenv` result. */
  predicate Given(s: Option<string>) {
    s.Some? && s.value != ""
  }

  /** `os.getenv(name)` */
  function GetEnv(env: map<string, string>, name: string): Option<string> {
    if name in env then Some(env[name]) else None
  }

  /** `s.rstrip("/")`: drop every trailing slash and nothing else. */
  function RStripSlashes(s: string): (r: string)
    ensures |r| <= |s| && r == s[..|r|]
    ensures forall i :: |r| <= i < |s| ==> s[i] == '/'
    ensures r == "" || r[|r| - 1] != '/'
  {
    if s != [] && s[|s| - 1] == '/' then
      var r := RStripSlashes(s[..|s| - 1]);
      assert s[..|s| - 1][..|r|] == s[..|r|];
      r
    else
      s
  }

  /**
   * `None` for `timeout` stands for the argument left out, which gives the default; the
   * other two arguments are `None` when left out, as in the source.
   */
  function Resolve(v: Variant, apiKey: Option<string>, baseUrl: Option<string>, timeout: Option<real>,
                   env: map<string, string>): (r: Result<Config, ConfigError>)
    // the key comes from the argument when given, else from the environment, and must be non-empty
    ensures r.Success? <==> Given(apiKey) || Given(GetEnv(env, v.apiKeyVar))
    ensures r.Failure? ==> r.error == MissingApiKey(v.apiKeyVar)
    ensures r.Success? ==> r.value.apiKey != ""
    ensures r.Success? ==> r.value.apiKey == if Given(apiKey) then apiKey.value else env[v.apiKeyVar]
    // the base URL comes from the argument, else the environment, else the default,
    // skipping empty values, and loses its trailing slashes
    ensures r.Success? ==>
              var chosen := if Given(baseUrl) then baseUrl.value
                            else if Given(GetEnv(env, v.baseUrlVar)) then env[v.baseUrlVar]
                            else DefaultBaseUrl;
              r.value.baseUrl == RStripSlashes(chosen)
    ensures r.Success? ==> r.value.baseUrl == "" || r.value.baseUrl[|r.value.baseUrl| - 1] != '/'
    // the timeout is the argument when given, else 10 time units, and is never checked
    ensures r.Success? ==> r.value.timeout == if timeout.Some? then timeout.value else DefaultTimeout
  {
    var key := if Given(apiKey) then apiKey else GetEnv(env, v.apiKeyVar);
    if !Given(key) then
      Failure(MissingApiKey(v.apiKeyVar))
    else
      var url := if Given(baseUrl) then baseUrl
                 else if Given(GetEnv(env, v.baseUrlVar)) then GetEnv(env, v.baseUrlVar)
                 else Some(DefaultBaseUrl);
      Success(Config(key.value, RStripSlashes(url.value), if timeout.Some? then timeout.value else DefaultTimeout))
  }

  /** Stripping is idempotent, so a resolved base URL fed back in resolves to itself. */
  lemma {:induction false} RStripIdempotent(s: string)
    ensures RStripSlashes(RStripSlashes(s)) == RStripSlashes(s)
  {
    if s != [] && s[|s| - 1] == '/' {
      RStripIdempotent(s[..|s| - 1]);
    }
  }

  /** `praxis.core.config.Config(api_key, base_url, timeout)` */
  function PraxisConfig(apiKey: Option<string>, baseUrl: Option<string>, timeout: Option<real>,
                        env: map<string, string>): (r: Result<Config, ConfigError>)
    // no key argument and no PRAXIS_API_KEY: construction fails
    ensures !Given(apiKey) && "PRAXIS_API_KEY" !in env ==> r == Failure(MissingApiKey("PRAXIS_API_KEY"))
    ensures r.Success? && !Given(baseUrl) && "PRAXIS_BASE_URL" !in env ==> r.value.baseUrl == DefaultBaseUrl
  {
    Resolve(Praxis, apiKey, baseUrl, timeout, env)
  }

  /** `robostream.core.config.Config(api_key, base_url, timeout)` */
  function RoboStreamConfig(apiKey: Option<string>, baseUrl: Option<string>, timeout: Option<real>,
                            env: map<string, string>): (r: Result<Config, ConfigError>)
    ensures !Given(apiKey) && "ROBOSTREAM_API_KEY" !in env ==> r == Failure(MissingApiKey("ROBOSTREAM_API_KEY"))
    ensures r.Success? && !Given(baseUrl) && "ROBOSTREAM_BASE_URL" !in env ==> r.value.baseUrl == DefaultBaseUrl
  {
    Resolve(RoboStream, apiKey, baseUrl, timeout, env)
  }
}
