/** `Session` (`robostream/session.py`): a context manager over a client with an `active` flag. */
module Sessions {

  /** The client's API attributes a session passes through. */
  datatype Apis<A> = Apis(physics: A, navigation: A, simulation: A)

  class Session<A> {
    const client: Apis<A>
    var active: bool

    /** A new session holds the client and is not active. */
    constructor(client: Apis<A>)
      ensures this.client == client && !active
    {
      this.client := client;
      active := false;
    }

    /** `__enter__`: becomes active and yields itself. */
    method Enter() returns (s: Session<A>)
      modifies this
      ensures active && s == this
    {
      active := true;
      s := this;
    }

    /** `__exit__`: becomes inactive and never suppresses the exception in flight, if any. */
    method Exit(raised: bool) returns (suppress: bool)
      modifies this
      ensures !active && !suppress
    {
      active := false;
      suppress := false;
    }

    function Physics(): A {
      client.physics
    }

    function Navigation(): A {
      client.navigation
    }

    function Simulation(): A {
      client.simulation
    }
  }

  /**
   * A `with client.session() as s:` block: whatever the body does with the session's APIs, the
   * session is inactive afterwards and the pass-through attributes are the client's own.
   */
  method Scoped<A>(client: Apis<A>, bodyRaises: bool) returns (s: Session<A>, suppressed: bool)
    ensures fresh(s) && !s.active && !suppressed
    ensures s.Physics() == client.physics && s.Navigation() == client.navigation
    ensures s.Simulation() == client.simulation
  {
    s := new Session(client);
    var entered := s.Enter();
    assert entered.active;
    suppressed := s.Exit(bodyRaises);
  }
}
