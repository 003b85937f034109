/**
  `SingleInstanceService`: the ownership flag decided by a named mutex, the
  listener started at most once on the first instance, the client call that
  forwards one message to the first instance, and idempotent disposal.
*/
module Service {
  import opened Wrappers
  import opened Utf8
  import opened Framing

  /** The exceptions the service raises, and the transport faults a client call reports. */
  datatype Failure =
    | ObjectDisposed(message: string)   // `Verify.NotDisposed`
    | InvalidOperation(message: string) // `Verify.Operation`
    | ConnectTimeout                    // no server accepted within the 200 ms of `ConnectAsync`
    | BrokenPipe                        // the pipe failed while the frames travelled
    | WriterCompleted                   // a reply written to an output that was already completed

  const DisposedMessage := "This instance has been disposed!"
  const FirstInstanceMessage := "This is the first instance."
  const NotFirstInstanceMessage := "This is not the first instance."
  const AlreadyStartedMessage := "Server already started!"

  /** The `_mutex` field: not yet created, or a handle that may have been disposed. */
  datatype MutexHandle = Unset | Handle(disposed: bool)

  /** What `Received` hands to subscribers: a message and the connection's output, to reply on. */
  datatype PendingRequest = PendingRequest(message: string, reply: OutputPipe)

  /** How the first instance answers a client: no server in time, a broken pipe, or reply bytes. */
  datatype Exchange = TimedOut | Broken | Replied(chunks: seq<seq<Byte>>)

  /**
    One turn of the listener loop as the transport delivers it: an exception
    somewhere in accepting or reading (cancellation included), or a connection
    whose request stream arrives in the given chunks and then completes.
  */
  datatype Connection = Faulted | Accepted(request: seq<seq<Byte>>)

  /** The messages of the published requests, in order. */
  function MessagesOf(rs: seq<PendingRequest>): (r: seq<string>)
    ensures |r| == |rs|
    ensures forall i :: 0 <= i < |rs| ==> r[i] == rs[i].message
  {
    if rs == [] then [] else MessagesOf(rs[..|rs| - 1]) + [rs[|rs| - 1].message]
  }

  /** What one turn of the listener publishes: the request's message unless it is empty. */
  function Publishes(c: Connection): seq<string> {
    match c
    case Faulted => []
    case Accepted(chunks) =>
      var m := FirstFrame(Concat(chunks));
      if m == "" then [] else [m]
  }

  /** What the listener publishes over a run of turns. */
  function Published(cs: seq<Connection>): seq<string> {
    if cs == [] then [] else Published(cs[..|cs| - 1]) + Publishes(cs[|cs| - 1])
  }

  lemma PublishedSnoc(cs: seq<Connection>, i: nat)
    requires i < |cs|
    ensures Published(cs[..i + 1]) == Published(cs[..i]) + Publishes(cs[i])
  {
    assert cs[..i + 1][..i] == cs[..i];
  }

  /** An empty message is never published. */
  lemma {:induction false} PublishedNonEmpty(cs: seq<Connection>)
    ensures forall i :: 0 <= i < |Published(cs)| ==> Published(cs)[i] != ""
  {
    if cs != [] {
      PublishedNonEmpty(cs[..|cs| - 1]);
    }
  }

  /** A connection whose request stream carries exactly the frame of `m`, in any chunking. */
  predicate CarriesFrame(c: Connection, m: string) {
    c.Accepted? && Concat(c.request) == EncodeFrame(m)
  }

  /** A message the frame format transports intact. */
  predicate Transportable(m: string) {
    m != "" && !ContainsCrLf(m)
  }

  lemma PublishesFrame(c: Connection, m: string)
    requires CarriesFrame(c, m) && Transportable(m)
    ensures Publishes(c) == [m]
  {
    ReadFrameOfMessage(m, []);
    assert EncodeFrame(m) + [] == Concat(c.request);
  }

  /** Every client `i` sends the frame of its own transportable message `ms[i]`. */
  predicate AllCarryFrames(cs: seq<Connection>, ms: seq<string>) {
    |cs| == |ms| && forall i {:trigger CarriesFrame(cs[i], ms[i])} :: 0 <= i < |ms| ==> Transportable(ms[i]) && CarriesFrame(cs[i], ms[i])
  }

  lemma AllCarryFramesPrefix(cs: seq<Connection>, ms: seq<string>, n: nat)
    requires AllCarryFrames(cs, ms) && n <= |cs|
    ensures AllCarryFrames(cs[..n], ms[..n])
  {
    forall i | 0 <= i < n
      ensures Transportable(ms[..n][i]) && CarriesFrame(cs[..n][i], ms[..n][i])
    {
      assert cs[..n][i] == cs[i] && ms[..n][i] == ms[i];
      assert CarriesFrame(cs[i], ms[i]);
    }
  }

  /**
    Every client that sends a non-empty message without "\r\n" has exactly that
    message published, in accept order, however its bytes are chunked.
  */
  lemma {:induction false} PublishedFrames(cs: seq<Connection>, ms: seq<string>)
    requires AllCarryFrames(cs, ms)
    ensures Published(cs) == ms
    decreases |cs|
  {
    if cs != [] {
      var n := |cs| - 1;
      AllCarryFramesPrefix(cs, ms, n);
      PublishedFrames(cs[..n], ms[..n]);
      assert CarriesFrame(cs[n], ms[n]);
      PublishesFrame(cs[n], ms[n]);
      assert ms == ms[..n] + [ms[n]];
    }
  }

  /**
    The reply capability bound to a received request: one frame on the
    connection's output, which is then completed. Completing flushes the frame
    to the server stream; when the client has gone (`clientGone`, an outcome
    of the transport) that flush fails and the reply fails with `BrokenPipe`.
    A second reply finds the output completed, writes nothing and fails with
    `WriterCompleted`, which is thrown before the flush is reached.
  */
  method SendResponse(reply: OutputPipe, message: string, clientGone: bool) returns (r: Outcome<Failure>)
    modifies reply
    ensures reply.completed
    ensures r == if old(reply.completed) then Fail(WriterCompleted) else if clientGone then Fail(BrokenPipe) else Pass
    ensures reply.written == if old(reply.completed) then old(reply.written) else old(reply.written) + EncodeFrame(message)
  {
    var ok := reply.WriteFrame(message);
    reply.Complete();
    r := if !ok then Fail(WriterCompleted) else if clientGone then Fail(BrokenPipe) else Pass;
  }

  class SingleInstanceService {
    const Identifier: string
    var mutex: MutexHandle
    var ownsMutex: bool
    /** `_server` has been set */
    var serverStarted: bool
    /** `_cts` has been cancelled */
    var cancelled: bool
    /** What `_received` has published, and whether it was completed */
    var received: seq<PendingRequest>
    var receivedCompleted: bool
    var IsDisposed: bool

    ghost predicate Valid()
      reads this
    {
      && (mutex == Unset ==> !ownsMutex)
      && (mutex.Handle? && !ownsMutex ==> mutex.disposed)
      && (mutex == Handle(true) ==> !ownsMutex || IsDisposed)
      && (IsDisposed ==> mutex != Handle(false))
      && (serverStarted ==> ownsMutex)
      && (cancelled <==> IsDisposed)
      && (receivedCompleted <==> IsDisposed)
      && forall i :: 0 <= i < |received| ==> received[i].message != ""
    }

    /** The identifier's validation by the platform's constructors is not part of this model. */
    constructor (identifier: string)
      ensures Valid()
      ensures Identifier == identifier && mutex == Unset && !ownsMutex && !serverStarted
      ensures !cancelled && received == [] && !receivedCompleted && !IsDisposed
    {
      Identifier := identifier;
      mutex := Unset;
      ownsMutex := false;
      serverStarted := false;
      cancelled := false;
      received := [];
      receivedCompleted := false;
      IsDisposed := false;
    }

    /** `IsFirstInstance`: the first instance holds the mutex it created until it is disposed. */
    function IsFirstInstance(): (r: bool)
      reads this
      ensures Valid() && r ==> mutex != Unset && (!IsDisposed ==> mutex == Handle(false))
    {
      ownsMutex
    }

    function Messages(): seq<string>
      reads this
    {
      MessagesOf(received)
    }

    /** `CheckDispose`: fails exactly when the service has been disposed. */
    function CheckDispose(): (r: Outcome<Failure>)
      reads this
      ensures r.Fail? <==> IsDisposed
      ensures r.Fail? ==> r.error == ObjectDisposed(DisposedMessage)
    {
      if IsDisposed then Fail(ObjectDisposed(DisposedMessage)) else Pass
    }

    /**
      `TryStartSingleInstance`. `createdNew` is what creating the named mutex
      with initial ownership would report; it is consulted only while `_mutex`
      is unset, so ownership is decided by the first call and later calls
      repeat its answer. A mutex that is not owned is disposed at once.
    */
    method TryStartSingleInstance(createdNew: bool) returns (r: Result<bool, Failure>)
      requires Valid()
      modifies this`mutex, this`ownsMutex
      ensures Valid()
      ensures old(IsDisposed) ==> r == Failure(ObjectDisposed(DisposedMessage))
      ensures old(IsDisposed) ==> mutex == old(mutex) && ownsMutex == old(ownsMutex)
      ensures !old(IsDisposed) && old(mutex) == Unset ==> ownsMutex == createdNew && mutex == Handle(!createdNew)
      ensures !old(IsDisposed) && old(mutex) != Unset ==> ownsMutex == old(ownsMutex) && mutex == old(mutex)
      ensures !old(IsDisposed) ==> r == Success(ownsMutex)
    {
      var check := CheckDispose();
      if check.Fail? {
        return Failure(check.error);
      }
      if mutex == Unset {
        mutex := Handle(false);
        ownsMutex := createdNew;
      }
      if !ownsMutex {
        mutex := Handle(true);
      }
      r := Success(ownsMutex);
    }

    /**
      `SendMessageToFirstInstanceAsync`: refused after disposal and on the first
      instance. Otherwise the frame of `message` is written and the output
      completed, and the reply is the first frame of what comes back, or ""
      when the stream ends without one. `sent` is what was written.
    */
    method SendMessageToFirstInstance(message: string, exchange: Exchange) returns (r: Result<string, Failure>, sent: seq<Byte>)
      ensures IsDisposed ==> r == Failure(ObjectDisposed(DisposedMessage)) && sent == []
      ensures !IsDisposed && IsFirstInstance() ==> r == Failure(InvalidOperation(FirstInstanceMessage)) && sent == []
      ensures !IsDisposed && !IsFirstInstance() ==>
        match exchange
        case TimedOut => r == Failure(ConnectTimeout) && sent == []
        case Broken => r == Failure(BrokenPipe) && sent == EncodeFrame(message)
        case Replied(chunks) => r == Success(FirstFrame(Concat(chunks))) && sent == EncodeFrame(message)
    {
      sent := [];
      var check := CheckDispose();
      if check.Fail? {
        return Failure(check.error), sent;
      }
      if IsFirstInstance() {
        return Failure(InvalidOperation(FirstInstanceMessage)), sent;
      }
      if exchange.TimedOut? {
        return Failure(ConnectTimeout), sent;
      }
      var output := new OutputPipe();
      var _ := output.WriteFrame(message);
      output.Complete();
      sent := output.written;
      if exchange.Broken? {
        return Failure(BrokenPipe), sent;
      }
      var reply := ReadAsync(exchange.chunks);
      r := Success(reply);
    }

    /** `StartListenServer`'s guards: only the first instance, only once, not after disposal. */
    method StartListenServer() returns (r: Outcome<Failure>)
      requires Valid()
      modifies this`serverStarted
      ensures Valid()
      ensures r == if IsDisposed then Fail(ObjectDisposed(DisposedMessage))
                   else if !IsFirstInstance() then Fail(InvalidOperation(NotFirstInstanceMessage))
                   else if old(serverStarted) then Fail(InvalidOperation(AlreadyStartedMessage))
                   else Pass
      ensures serverStarted == (old(serverStarted) || r.Pass?)
    {
      var check := CheckDispose();
      if check.Fail? {
        return check;
      }
      if !IsFirstInstance() {
        return Fail(InvalidOperation(NotFirstInstanceMessage));
      }
      if serverStarted {
        return Fail(InvalidOperation(AlreadyStartedMessage));
      }
      serverStarted := true;
      r := Pass;
    }

    /**
      One turn of the listener loop: stop once cancelled; otherwise read one
      request, skip it when empty, and publish it with a fresh reply output.
      Faults are swallowed and the loop goes on. A turn runs as one step with
      respect to `Dispose`, so `Received` is never completed while it runs.
    */
    method ListenStep(connection: Connection) returns (running: bool)
      requires Valid() && serverStarted
      modifies this`received
      ensures Valid()
      ensures running == !cancelled
      ensures old(received) <= received && |received| <= |old(received)| + 1
      ensures Messages() == old(Messages()) + if cancelled then [] else Publishes(connection)
      ensures |received| > |old(received)| ==>
        var reply := received[|received| - 1].reply;
        fresh(reply) && reply.written == [] && !reply.completed
    {
      if cancelled {
        return false;
      }
      running := true;
      match connection
      case Faulted =>
      case Accepted(chunks) =>
        var receive := ReadAsync(chunks);
        if receive == "" {
          return;
        }
        var output := new OutputPipe();
        received := received + [PendingRequest(receive, output)];
        assert received[..|received| - 1] == old(received);
    }

    /**
      The listener loop over the turns `connections`, until cancellation:
      every non-empty request is published once, in order, and no fault stops it.
    */
    method ListenLoop(connections: seq<Connection>)
      requires Valid() && serverStarted
      modifies this`received
      ensures Valid()
      ensures old(received) <= received
      ensures Messages() == old(Messages()) + if cancelled then [] else Published(connections)
    {
      if cancelled {
        return;
      }
      for i := 0 to |connections|
        invariant Valid() && old(received) <= received
        invariant Messages() == old(Messages()) + Published(connections[..i])
      {
        var _ := ListenStep(connections[i]);
        PublishedSnoc(connections, i);
      }
      assert connections[..|connections|] == connections;
    }

    /**
      `Dispose`: the first call cancels the listener, disposes the mutex,
      completes `Received` and marks the service disposed; later calls change
      nothing.
    */
    method Dispose()
      requires Valid()
      modifies this`cancelled, this`mutex, this`receivedCompleted, this`IsDisposed
      ensures Valid()
      ensures IsDisposed && cancelled && receivedCompleted
      ensures old(IsDisposed) ==> mutex == old(mutex)
      ensures !old(IsDisposed) ==> mutex == if old(mutex) == Unset then Unset else Handle(true)
    {
      if IsDisposed {
        return;
      }
      cancelled := true;
      if mutex.Handle? {
        mutex := Handle(true);
      }
      receivedCompleted := true;
      IsDisposed := true;
    }
  }
}
