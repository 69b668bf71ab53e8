/**
 * The connection bookkeeping of the LDAP service: whether a client object
 * exists, whether it is connected, and how many reconnections have been
 * attempted since the last successful connect.  The client's events are
 * delivered as method calls; the timers that schedule a retry are not part
 * of the model.
 */
module LdapConnection {

  /** Retries allowed before an error is passed on to the caller. */
  const MaxReconnectAttempts: nat := 5

  datatype ConnState = ConnState(hasClient: bool, connected: bool, attempts: nat)

  /** What happens to the connection: a client is created, or the client
      reports `connect`, `error` or `close`, or the service unbinds it. */
  datatype Event = Create | Connect | Error | Close | Unbind

  /** The error handler either schedules another connection or rejects. */
  datatype ErrorAction = Retry | Reject

  const Initial := ConnState(false, false, 0)

  /** The error handler retries while fewer than the maximum number of
      attempts have been made. */
  function ErrorActionFor(s: ConnState): (a: ErrorAction)
    ensures a == Retry <==> s.attempts < MaxReconnectAttempts
  {
    if s.attempts < MaxReconnectAttempts then Retry else Reject
  }

  /** The state after one event.  No event takes the counter above the
      maximum, only `connect` resets it and only `error` raises it. */
  function Step(s: ConnState, ev: Event): (t: ConnState)
    ensures s.attempts <= MaxReconnectAttempts ==> t.attempts <= MaxReconnectAttempts
    ensures t.attempts < s.attempts ==> ev == Connect
    ensures t.attempts > s.attempts ==> ev == Error && t.attempts == s.attempts + 1
    ensures ev == Error || ev == Close ==> !t.connected
  {
    match ev
    case Create => s.(hasClient := true)
    case Connect => s.(connected := true, attempts := 0)
    case Error =>
      s.(connected := false,
         attempts := if ErrorActionFor(s) == Retry then s.attempts + 1 else s.attempts)
    case Close => s.(connected := false)
    case Unbind => if s.hasClient then s.(hasClient := false, connected := false) else s
  }

  /** The state after a sequence of events. */
  function Run(s: ConnState, evs: seq<Event>): ConnState
    decreases |evs|
  {
    if evs == [] then s else Run(Step(s, evs[0]), evs[1..])
  }

  /** From the initial state, or any state within the bound, no sequence
      of events takes the counter above the maximum. */
  lemma {:induction false} RunBounded(s: ConnState, evs: seq<Event>)
    requires s.attempts <= MaxReconnectAttempts
    ensures Run(s, evs).attempts <= MaxReconnectAttempts
    decreases |evs|
  {
    if evs != [] {
      RunBounded(Step(s, evs[0]), evs[1..]);
    }
  }

  function Errors(n: nat): (evs: seq<Event>)
    ensures |evs| == n && forall i :: 0 <= i < n ==> evs[i] == Error
  {
    seq(n, i => Error)
  }

  /** After a successful connect, `n` errors in a row leave the counter at
      `n` (for `n` up to the maximum): the first five errors are retried
      and the sixth is rejected. */
  lemma {:induction false} ErrorsAfterConnect(s: ConnState, n: nat)
    requires n <= MaxReconnectAttempts
    ensures Run(Step(s, Connect), Errors(n)).attempts == n
    ensures ErrorActionFor(Run(Step(s, Connect), Errors(n))) == (if n < MaxReconnectAttempts then Retry else Reject)
  {
    ErrorsFrom(Step(s, Connect), n);
  }

  lemma {:induction false} ErrorsFrom(s: ConnState, n: nat)
    requires s.attempts + n <= MaxReconnectAttempts
    ensures Run(s, Errors(n)).attempts == s.attempts + n
    decreases n
  {
    if n > 0 {
      assert Errors(n)[1..] == Errors(n - 1);
      ErrorsFrom(Step(s, Error), n - 1);
    } else {
      assert Errors(0) == [];
    }
  }

  /** Once the maximum is reached, further errors are all rejected and the
      counter stays where it is. */
  lemma {:induction false} ErrorsAtLimit(s: ConnState, n: nat)
    requires s.attempts == MaxReconnectAttempts
    ensures Run(s, Errors(n)).attempts == MaxReconnectAttempts
    ensures ErrorActionFor(Run(s, Errors(n))) == Reject
    decreases n
  {
    if n > 0 {
      assert Errors(n)[1..] == Errors(n - 1);
      ErrorsAtLimit(Step(s, Error), n - 1);
    } else {
      assert Errors(0) == [];
    }
  }

  /** The service object: its client handle, the connected flag and the
      attempt counter, updated by the client's event handlers. */
  class Connection {
    var hasClient: bool
    var connected: bool
    var reconnectAttempts: nat

    function State(): ConnState
      reads this
    {
      ConnState(hasClient, connected, reconnectAttempts)
    }

    /** A new service has no client, is not connected and has made no attempt. */
    constructor()
      ensures State() == Initial
    {
      hasClient := false;
      connected := false;
      reconnectAttempts := 0;
    }

    /** `createConnection` stores a new client before any event arrives. */
    method CreateClient()
      modifies this
      ensures State() == Step(old(State()), Create)
    {
      hasClient := true;
    }

    /** The `connect` handler. */
    method OnConnect()
      modifies this
      ensures State() == Step(old(State()), Connect)
    {
      connected := true;
      reconnectAttempts := 0;
    }

    /** The `error` handler: retry while attempts remain, else reject. */
    method OnError() returns (action: ErrorAction)
      modifies this
      ensures action == ErrorActionFor(old(State()))
      ensures State() == Step(old(State()), Error)
    {
      connected := false;
      if reconnectAttempts < MaxReconnectAttempts {
        reconnectAttempts := reconnectAttempts + 1;
        action := Retry;
      } else {
        action := Reject;
      }
    }

    /** The `close` handler. */
    method OnClose()
      modifies this
      ensures State() == Step(old(State()), Close)
    {
      connected := false;
    }

    /** `disconnect`: unbinds and forgets the client, if there is one. */
    method Disconnect()
      modifies this
      ensures State() == Step(old(State()), Unbind)
    {
      if hasClient {
        hasClient := false;
        connected := false;
      }
    }

    /** `getClient`: a new connection is created exactly when there is no
      client or it is not connected. */
    method GetClient() returns (created: bool)
      modifies this
      ensures created <==> !old(hasClient) || !old(connected)
      ensures State() == if created then Step(old(State()), Create) else old(State())
    {
      created := !hasClient || !connected;
      if created {
        CreateClient();
      }
    }
  }
}
