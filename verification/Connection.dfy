/** The connection's state, host failover, and the guard against simultaneous queries. */
module Connection {
  import opened Outcomes

  type Host = (string, nat)

  // ----- what the network does -----

  /** How one attempt to connect ends. A socket may be open by then; receive_hello drops it for some errors. */
  datatype Attempt =
    | Success
    | SocketFailure(reached: bool, error: string)
    | OtherFailure(reached: bool, dropped: bool, error: string)

  datatype Ping = Pong | Lost | PingRaises

  datatype Outcome = Done | Refused | Failed(error: string)

  // ----- states -----

  datatype State = State(hosts: seq<Host>, host: Option<Host>, socket: bool, connected: bool,
                         executing: bool, lockHeld: bool)

  predicate Idle(s: State)
  {
    !s.connected && !s.socket && !s.executing && s.host == None
  }

  /** reset_state, which disconnect ends with. */
  function Reset(s: State): (r: State)
    ensures Idle(r) && r.hosts == s.hosts && r.lockHeld == s.lockHeld
  {
    s.(host := None, socket := false, connected := false, executing := false)
  }

  function Opened(s: State, host: Host): State
  {
    s.(host := Some(host), socket := true, connected := true)
  }

  /** _init_connection for the host at the head. */
  function Init(s: State, attempt: Attempt): State
    requires s.hosts != []
  {
    match attempt
    case Success => Opened(s, s.hosts[0])
    case SocketFailure(reached, _) => if reached then Opened(s, s.hosts[0]) else s
    case OtherFailure(reached, dropped, _) =>
      if dropped then Reset(s) else if reached then Opened(s, s.hosts[0]) else s
  }

  /** `deque.rotate(-1)` */
  function Rotate(hosts: seq<Host>): (r: seq<Host>)
    requires hosts != []
    ensures |r| == |hosts|
  {
    hosts[1..] + hosts[..1]
  }

  /** The attempts numbered i and up. */
  function Attempts(s: State, attempts: nat -> Attempt, i: nat, n: nat): (r: (State, Outcome))
    requires s.hosts != [] && i < n
    ensures |r.0.hosts| == |s.hosts|
    decreases n - i
  {
    match attempts(i)
    case Success => (Init(s, attempts(i)), Done)
    case OtherFailure(_, _, error) => (Init(s, attempts(i)), Failed(error))
    case SocketFailure(_, error) =>
      var s' := Reset(Init(s, attempts(i)));
      var s'' := s'.(hosts := Rotate(s'.hosts));
      if i + 1 == n then (s'', Failed(error)) else Attempts(s'', attempts, i + 1, n)
  }

  /** connect */
  function Connect(s: State, attempts: nat -> Attempt): (State, Outcome)
    requires s.hosts != []
  {
    Attempts(if s.connected then Reset(s) else s, attempts, 0, |s.hosts|)
  }

  /** check_query_execution: a refusal leaves the lock held. */
  function Check(s: State): (State, Outcome)
  {
    if s.executing then (s.(lockHeld := true), Refused) else (s.(executing := true, lockHeld := false), Done)
  }

  /** force_connect */
  function ForceConnect(s: State, ping: Ping, attempts: nat -> Attempt): (State, Outcome)
    requires s.hosts != []
  {
    var (s', checked) := Check(s);
    if checked != Done then (s', checked)
    else if !s'.connected then Connect(s', attempts)
    else
      match ping
      case Pong => (s', Done)
      case Lost => Connect(s', attempts)
      case PingRaises => (s', Failed("ping"))
  }

  // ----- host failover -----

  /** hosts rotated k places. */
  function Rotated(hosts: seq<Host>, k: nat): (r: seq<Host>)
    requires k <= |hosts|
    ensures |r| == |hosts|
  {
    hosts[k..] + hosts[..k]
  }

  /** The number of socket failures before the first attempt that ends otherwise. */
  function FailuresFrom(attempts: nat -> Attempt, i: nat, n: nat): (r: nat)
    requires i <= n
    ensures i <= r <= n
    ensures forall k :: i <= k < r ==> attempts(k).SocketFailure?
    ensures r < n ==> !attempts(r).SocketFailure?
    decreases n - i
  {
    if i < n && attempts(i).SocketFailure? then FailuresFrom(attempts, i + 1, n) else i
  }

  lemma RotateOnce(hosts: seq<Host>, k: nat)
    requires k < |hosts|
    ensures Rotate(Rotated(hosts, k)) == Rotated(hosts, k + 1)
    ensures Rotated(hosts, k)[0] == hosts[k]
  {
  }

  lemma {:induction false} AttemptsFailOver(original: seq<Host>, s: State, attempts: nat -> Attempt, i: nat)
    requires i < |original| && s.hosts == Rotated(original, i) && !s.connected
    ensures var n := FailuresFrom(attempts, i, |original|);
            var (s', outcome) := Attempts(s, attempts, i, |original|);
            && s'.hosts == Rotated(original, n)
            && (outcome == Done <==> n < |original| && attempts(n).Success?)
            && (outcome == Done ==> s'.connected && s'.socket && s'.host == Some(original[n]) == Some(s'.hosts[0]))
            && (outcome == Done ==> s'.executing == (s.executing && n == i))
            && (n == |original| ==> Idle(s') && outcome == Failed(attempts(n - 1).error))
            && (n < |original| && attempts(n).OtherFailure? ==>
                  && outcome == Failed(attempts(n).error)
                  && (s'.connected <==> attempts(n).reached && !attempts(n).dropped)
                  && (s'.connected ==> s'.host == Some(original[n]) && s'.socket))
            && !outcome.Refused? && s'.lockHeld == s.lockHeld
    decreases |original| - i
  {
    RotateOnce(original, i);
    if attempts(i).SocketFailure? && i + 1 < |original| {
      var s' := Reset(Init(s, attempts(i)));
      AttemptsFailOver(original, s'.(hosts := Rotate(s'.hosts)), attempts, i + 1);
    }
  }

  /** One call of connect goes from host to host until an attempt does not end in a socket failure. Success leaves
      the connected host at the head; when every attempt is a socket failure, the order is what it was, nothing is
      open, and the last error is raised. Any other failure is raised at once, and a host that was reached stays
      connected unless the failure dropped it. */
  lemma ConnectFailsOver(s: State, attempts: nat -> Attempt)
    requires s.hosts != []
    ensures var n := FailuresFrom(attempts, 0, |s.hosts|);
            var (s', outcome) := Connect(s, attempts);
            && s'.hosts == Rotated(s.hosts, n)
            && (outcome == Done <==> n < |s.hosts| && attempts(n).Success?)
            && (outcome == Done ==> s'.connected && s'.socket && s'.host == Some(s.hosts[n]) == Some(s'.hosts[0]))
            && (outcome == Done ==> s'.executing == (s.executing && !s.connected && n == 0))
            && (n == |s.hosts| ==> s'.hosts == s.hosts && Idle(s') && outcome == Failed(attempts(n - 1).error))
            && (n < |s.hosts| && attempts(n).OtherFailure? ==>
                  && outcome == Failed(attempts(n).error)
                  && (s'.connected <==> attempts(n).reached && !attempts(n).dropped)
                  && (s'.connected ==> s'.host == Some(s.hosts[n]) && s'.socket))
            && !outcome.Refused? && s'.lockHeld == s.lockHeld
  {
    var start := if s.connected then Reset(s) else s;
    assert Rotated(s.hosts, 0) == s.hosts == Rotated(s.hosts, |s.hosts|);
    AttemptsFailOver(s.hosts, start, attempts, 0);
  }

  lemma MoreDialled(dialled: seq<Host>, hosts: seq<Host>, i: nat)
    requires i < |hosts|
    ensures dialled + hosts[..i] + [hosts[i]] == dialled + hosts[..i + 1]
  {
  }

  ghost predicate IsRotation(hosts: seq<Host>, original: seq<Host>)
  {
    exists k :: 0 <= k <= |original| && hosts == Rotated(original, k)
  }

  lemma RotationsCompose(original: seq<Host>, k: nat, m: nat)
    requires k <= |original| && m <= |original|
    ensures IsRotation(Rotated(Rotated(original, k), m), original)
  {
    var hosts := Rotated(original, k);
    if k + m <= |original| {
      assert Rotated(hosts, m) == Rotated(original, k + m);
    } else {
      assert Rotated(hosts, m) == Rotated(original, k + m - |original|);
    }
  }

  /** Connecting again and again, with whatever failures, never loses or duplicates a host. */
  lemma ConnectKeepsRotation(s: State, attempts: nat -> Attempt, original: seq<Host>)
    requires s.hosts != [] && IsRotation(s.hosts, original)
    ensures IsRotation(Connect(s, attempts).0.hosts, original)
  {
    ConnectFailsOver(s, attempts);
    var k :| 0 <= k <= |original| && s.hosts == Rotated(original, k);
    RotationsCompose(original, k, FailuresFrom(attempts, 0, |s.hosts|));
  }

  // ----- starting a query -----

  /** The connection a query starts on: live, or made at the first attempt. */
  predicate Firm(s: State, ping: Ping, attempts: nat -> Attempt)
  {
    if s.connected then ping == Pong else attempts(0).Success?
  }

  /** force_connect refuses exactly while a query executes. When it succeeds the connection is up, and the new
      query counts as executing exactly if the connection is firm: a reconnect clears the mark. */
  lemma ForceConnectMarks(s: State, ping: Ping, attempts: nat -> Attempt)
    requires s.hosts != [] && (s.connected ==> s.socket)
    ensures var (s', outcome) := ForceConnect(s, ping, attempts);
            && (outcome == Refused <==> s.executing)
            && (outcome == Done ==> s'.connected && s'.socket && s'.executing == Firm(s, ping, attempts))
            && s'.lockHeld == outcome.Refused?
  {
    ConnectFailsOver(Check(s).0, attempts);
  }

  /** When a query starts: on a live connection that answers the ping, where nothing is touched, or after connecting
      anew because there is none or the ping is lost, if the first attempt that is no socket failure is a success.
      A ping that raises fails the query. */
  lemma QueryStartsExactly(s: State, ping: Ping, attempts: nat -> Attempt)
    requires s.hosts != [] && !s.executing
    ensures var n := FailuresFrom(attempts, 0, |s.hosts|);
            var (s', outcome) := ForceConnect(s, ping, attempts);
            var kept, anew := s.connected && ping == Pong, !s.connected || ping == Lost;
            && (outcome == Done <==> kept || (anew && n < |s.hosts| && attempts(n).Success?))
            && (kept ==> s' == s.(executing := true, lockHeld := false))
            && (anew ==> s'.hosts == Rotated(s.hosts, n))
            && (anew && outcome == Done ==> s'.host == Some(s.hosts[n]) && s'.socket && s'.connected)
            && (anew && n == |s.hosts| ==> outcome == Failed(attempts(n - 1).error))
            && (anew && n < |s.hosts| && attempts(n).OtherFailure? ==> outcome == Failed(attempts(n).error))
            && (!kept && !anew ==> outcome.Failed? && s'.hosts == s.hosts && s'.connected)
  {
    ConnectFailsOver(Check(s).0, attempts);
  }

  // ----- runs -----

  /** What can happen to a client: a query starts, a packet is received for the open one, something in a query
      or a result raises, the caller disconnects. */
  datatype Event =
    | Start(ping: Ping, attempts: nat -> Attempt)
    | Received(packet: Reception)
    | Raises
    | Disconnects

  datatype Reception = End | Unknown | Other

  /** One event; every failure goes through the client's handlers, which disconnect. */
  function Step(s: State, e: Event): (r: (State, Outcome))
    requires s.hosts != []
    ensures r.0.hosts != []
  {
    match e
    case Start(ping, attempts) =>
      var (s', outcome) := ForceConnect(s, ping, attempts);
      if outcome == Done then (s', Done) else (Reset(s'), outcome)
    case Received(packet) =>
      if !s.connected || packet.Unknown? then (Reset(s), Failed("receive"))
      else if packet.End? then (s.(executing := false), Done)
      else (s, Done)
    case Raises => (Reset(s), Failed("raised"))
    case Disconnects => (Reset(s), Done)
  }

  ghost predicate Consistent(s: State, original: seq<Host>)
  {
    && s.hosts != [] && IsRotation(s.hosts, original) && (s.connected <==> s.socket) && (s.executing ==> s.connected)
  }

  lemma StepKeepsConsistent(s: State, e: Event, original: seq<Host>)
    requires Consistent(s, original)
    ensures Consistent(Step(s, e).0, original)
  {
    if e.Start? {
      var s' := Check(s).0;
      ConnectKeepsRotation(s', e.attempts, original);
      ConnectFailsOver(s', e.attempts);
      ForceConnectMarks(s, e.ping, e.attempts);
    }
  }

  /** Every failure, refusals included, ends with nothing connected and no query executing, and so does a disconnect.
      What fails is starting a query that does not start, a packet that is unknown or that no connection can deliver,
      and whatever raises; other packets leave all as it is but for the mark, which the end of the stream clears. */
  lemma FailureEndsIdle(s: State, e: Event, original: seq<Host>)
    requires Consistent(s, original)
    ensures var (s', outcome) := Step(s, e);
            && (outcome != Done || e.Disconnects? ==> Idle(s'))
            && match e
               case Start(ping, attempts) => outcome == ForceConnect(s, ping, attempts).1
               case Received(packet) =>
                 && (outcome == Done <==> s.connected && !packet.Unknown?)
                 && (outcome == Done ==> s' == if packet.End? then s.(executing := false) else s)
               case Raises => outcome.Failed?
               case Disconnects => outcome == Done
  {
  }

  function Run(s: State, events: seq<Event>): (r: State)
    requires s.hosts != []
    ensures r.hosts != []
  {
    if events == [] then s
    else
      var front := Run(s, events[..|events| - 1]);
      Step(front, events[|events| - 1]).0
  }

  /** Whether, after these events, a query is open that started on a firm connection: the last thing that
      happened besides ordinary packets was its successful start. Defined on the history alone, but for the
      state in which each query started. */
  function FirmlyOpen(s: State, events: seq<Event>): bool
    requires s.hosts != []
  {
    if events == [] then false
    else
      var front, e := events[..|events| - 1], events[|events| - 1];
      var before := Run(s, front);
      match e
      case Start(ping, attempts) => Step(before, e).1 == Done && Firm(before, ping, attempts)
      case Received(packet) => packet.Other? && before.connected && FirmlyOpen(s, front)
      case Raises => false
      case Disconnects => false
  }

  /** In every run the mark says exactly whether a firmly reached query is open. */
  lemma {:induction false} MarkIsExact(s: State, events: seq<Event>)
    requires Idle(s) && Consistent(s, s.hosts)
    ensures Consistent(Run(s, events), s.hosts)
    ensures Run(s, events).executing == FirmlyOpen(s, events)
    decreases |events|
  {
    if events != [] {
      var front, e := events[..|events| - 1], events[|events| - 1];
      MarkIsExact(s, front);
      StepKeepsConsistent(Run(s, front), e, s.hosts);
      if e.Start? {
        ForceConnectMarks(Run(s, front), e.ping, e.attempts);
      }
    }
  }

  /** In every run a query is refused exactly while a firmly reached one is open, that is, before its
      END_OF_STREAM, failure or disconnect; after the refusal the next query is not refused. */
  lemma RefusedExactly(s: State, events: seq<Event>, ping: Ping, attempts: nat -> Attempt)
    requires Idle(s) && Consistent(s, s.hosts)
    ensures var r := Run(s, events);
            var (r', outcome) := Step(r, Start(ping, attempts));
            && (outcome == Refused <==> FirmlyOpen(s, events))
            && (outcome == Refused ==> Idle(r') && forall p, a :: Step(r', Start(p, a)).1 != Refused)
  {
    MarkIsExact(s, events);
    var r := Run(s, events);
    ForceConnectMarks(r, ping, attempts);
    var r' := Step(r, Start(ping, attempts)).0;
    if Step(r, Start(ping, attempts)).1 == Refused {
      forall p, a
        ensures Step(r', Start(p, a)).1 != Refused
      {
        ForceConnectMarks(r', p, a);
      }
    }
  }

  // ----- the objects -----

  class Lock {
    var held: bool

    constructor ()
      ensures !held
    {
      held := false;
    }

    /** `acquire(blocking=False)`: held afterwards in any case. */
    method Acquire() returns (acquired: bool)
      modifies this
      ensures held && acquired == !old(held)
    {
      acquired, held := !held, true;
    }

    /** Releasing a lock that is not held is a RuntimeError. */
    method Release()
      requires held
      modifies this
      ensures !held
    {
      held := false;
    }
  }

  class ServerConnection {
    var hosts: seq<Host>
    var host: Option<Host>
    var socket: bool
    var connected: bool
    var isQueryExecuting: bool
    const lock: Lock
    // Every host an attempt was made on.
    ghost var dialled: seq<Host>

    ghost function Now(): State
      reads this, lock
    {
      State(hosts, host, socket, connected, isQueryExecuting, lock.held)
    }

    constructor (hosts: seq<Host>)
      ensures Now() == State(hosts, None, false, false, false, false) && fresh(lock)
    {
      this.hosts, host, socket, connected, isQueryExecuting := hosts, None, false, false, false;
      dialled := [];
      lock := new Lock();
    }

    method ResetState()
      modifies this`host, this`socket, this`connected, this`isQueryExecuting
      ensures Now() == Reset(old(Now()))
    {
      host, socket, connected := None, false, false;
      isQueryExecuting := false;
    }

    method Disconnect()
      modifies this`host, this`socket, this`connected, this`isQueryExecuting
      ensures Now() == Reset(old(Now()))
    {
      if connected {
        socket := false;
      } else if socket {
        socket := false;
      }
      ResetState();
    }

    method InitConnection(attempt: Attempt)
      requires hosts != []
      modifies this
      ensures Now() == Init(old(Now()), attempt)
      ensures dialled == old(dialled) + [old(hosts)[0]]
    {
      dialled := dialled + [hosts[0]];
      if attempt.Success? || attempt.reached {
        socket := true;
        connected := true;
        host := Some(hosts[0]);
      }
      if attempt.OtherFailure? && attempt.dropped {
        Disconnect();
      }
    }

    /** One attempt: it ends the call, or moves on to the next host. */
    method TryHead(attempts: nat -> Attempt, i: nat, ghost n: nat) returns (ended: bool, outcome: Outcome)
      requires hosts != [] && i < n
      modifies this
      ensures dialled == old(dialled) + [old(hosts)[0]]
      ensures ended == !attempts(i).SocketFailure?
      ensures hosts == if ended then old(hosts) else Rotate(old(hosts))
      ensures Attempts(old(Now()), attempts, i, n)
           == if ended || i + 1 == n then (Now(), outcome) else Attempts(Now(), attempts, i + 1, n)
    {
      var attempt := attempts(i);
      InitConnection(attempt);
      match attempt {
        case Success =>
          return true, Done;
        case OtherFailure(_, _, error) =>
          return true, Failed(error);
        case SocketFailure(_, error) =>
          Disconnect();
          outcome := Failed(error);
      }
      hosts := Rotate(hosts);
      ended := false;
    }

    /** The hosts are tried in cyclic order from the head, each at most once. */
    method ConnectTo(attempts: nat -> Attempt) returns (outcome: Outcome)
      requires hosts != []
      modifies this
      ensures (Now(), outcome) == Connect(old(Now()), attempts)
      ensures var n := FailuresFrom(attempts, 0, |old(hosts)|);
              dialled == old(dialled) + old(hosts)[..if n < |old(hosts)| then n + 1 else n]
    {
      if connected {
        Disconnect();
      }
      var n := |hosts|;
      outcome := Failed("");
      ghost var start, original, before := Now(), hosts, dialled;
      assert before + original[..0] == before && Rotated(original, 0) == original;
      for i := 0 to n
        invariant hosts == Rotated(original, i) && n == |original|
        invariant dialled == before + original[..i]
        invariant FailuresFrom(attempts, 0, n) == FailuresFrom(attempts, i, n)
        invariant Attempts(start, attempts, 0, n) == if i < n then Attempts(Now(), attempts, i, n) else (Now(), outcome)
      {
        RotateOnce(original, i);
        MoreDialled(before, original, i);
        var ended;
        ended, outcome := TryHead(attempts, i, n);
        if ended {
          return;
        }
      }
    }

    method CheckQueryExecution() returns (outcome: Outcome)
      modifies this, lock
      ensures (Now(), outcome) == Check(old(Now()))
    {
      var acquired := lock.Acquire();
      if isQueryExecuting {
        return Refused;
      }
      isQueryExecuting := true;
      lock.Release();
      outcome := Done;
    }

    method ForceConnectTo(ping: Ping, attempts: nat -> Attempt) returns (outcome: Outcome)
      requires hosts != []
      modifies this, lock
      ensures (Now(), outcome) == ForceConnect(old(Now()), ping, attempts)
    {
      outcome := CheckQueryExecution();
      if outcome != Done {
        return;
      }
      if !connected {
        outcome := ConnectTo(attempts);
      } else {
        match ping {
          case Pong =>
          case Lost =>
            outcome := ConnectTo(attempts);
          case PingRaises =>
            outcome := Failed("ping");
        }
      }
    }

    /** receive_packet; reading without a connection raises. */
    method ReceivePacket(packet: Reception) returns (ok: bool)
      modifies this
      ensures ok == (old(connected) && !packet.Unknown?)
      ensures Now() == if ok && packet.End? then old(Now()).(executing := false)
                       else if old(connected) && packet.Unknown? then Reset(old(Now()))
                       else old(Now())
    {
      if !connected {
        return false;
      }
      match packet {
        case End =>
          isQueryExecuting := false;
          ok := true;
        case Unknown =>
          Disconnect();
          ok := false;
        case Other =>
          ok := true;
      }
    }
  }

  class Client {
    const connection: ServerConnection

    constructor (hosts: seq<Host>)
      ensures connection.Now() == State(hosts, None, false, false, false, false)
    {
      connection := new ServerConnection(hosts);
    }

    /** disconnect_on_error and the packet generator: one event of a run. */
    method Handle(e: Event) returns (outcome: Outcome)
      requires connection.hosts != []
      modifies connection, connection.lock
      ensures (connection.Now(), outcome) == Step(old(connection.Now()), e)
    {
      match e {
        case Start(ping, attempts) =>
          outcome := connection.ForceConnectTo(ping, attempts);
          if outcome != Done {
            connection.Disconnect();
          }
        case Received(packet) =>
          var ok := connection.ReceivePacket(packet);
          outcome := Done;
          if !ok {
            connection.Disconnect();
            outcome := Failed("receive");
          }
        case Raises =>
          connection.Disconnect();
          outcome := Failed("raised");
        case Disconnects =>
          connection.Disconnect();
          outcome := Done;
      }
    }

    /** A whole run. */
    method HandleAll(events: seq<Event>)
      requires connection.hosts != []
      modifies connection, connection.lock
      ensures connection.Now() == Run(old(connection.Now()), events)
    {
      for i := 0 to |events|
        invariant connection.hosts != []
        invariant connection.Now() == Run(old(connection.Now()), events[..i])
      {
        assert events[..i + 1][..i] == events[..i];
        var outcome := Handle(events[i]);
      }
      assert events[..|events|] == events;
    }
  }
}
