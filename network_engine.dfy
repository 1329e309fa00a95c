/** NetworkEngine: wires a transport, its monitor and the dispatcher
    together, routes inbound frames to the endpoint registered for their id,
    and runs the receive loop. Every call is taken to run on the engine's own
    thread (the marshaling onto it is not modelled). */
module Engine {
  import opened Wire

  /// An `IRemoteInvoker*`: null, or the endpoint with reference `ref`.
  datatype Endpoint = NullEndpoint | Invoker(ref: nat)

  /// One `Invoke(*arg_data)` call on an endpoint.
  datatype Invocation = Invocation(endpoint: nat, args: seq<byte>)

  /// Where `m_dispatcher.SetTransport` points.
  datatype Route = NoRoute | DirectToTransport | ThroughReliable

  /// One pass of the receive loop: what `Receive` returned (its error code,
  /// the header and the stream's contents) and whether the exit flag was set
  /// by the time the loop looked at it again.
  datatype Poll = Poll(err: int, header: DmqHeader, data: seq<byte>, exitAfter: bool)

  /// A frame the receive loop hands on to `Incoming`.
  datatype Frame = Frame(header: DmqHeader, data: seq<byte>)

  /// What `Incoming(header, arg_data)` invokes for a frame, given the
  /// endpoint map.
  function Route1(m: map<u16, Endpoint>, f: Frame): (calls: seq<Invocation>)
    ensures |calls| <= 1
  {
    if f.header.id != ACK_REMOTE_ID && f.header.id in m && m[f.header.id].Invoker?
    then [Invocation(m[f.header.id].ref, f.data)]
    else []
  }

  /// The frames the receive loop forwards from a run of polls: those received
  /// without error and with a non-empty stream, up to the poll after which
  /// the exit flag is seen set.
  function Forwarded(polls: seq<Poll>): seq<Frame>
  {
    if |polls| == 0 then []
    else
      var p := polls[0];
      if p.exitAfter then []
      else (if p.err == 0 && |p.data| > 0 then [Frame(p.header, p.data)] else []) + Forwarded(polls[1..])
  }

  /// `Incoming` over a sequence of frames, in order.
  function Deliver(m: map<u16, Endpoint>, frames: seq<Frame>): seq<Invocation>
  {
    if |frames| == 0 then [] else Route1(m, frames[0]) + Deliver(m, frames[1..])
  }

  /// An acknowledgement id reaches no endpoint, whatever is registered.
  lemma AckNeverInvoked(m: map<u16, Endpoint>, h: DmqHeader, d: seq<byte>)
    requires h.id == ACK_REMOTE_ID
    ensures Route1(m, Frame(h, d)) == []
  {
  }

  /// An id with no endpoint, or a null one, reaches nothing.
  lemma UnknownDropped(m: map<u16, Endpoint>, h: DmqHeader, d: seq<byte>)
    requires h.id !in m || m[h.id] == NullEndpoint
    ensures Route1(m, Frame(h, d)) == []
  {
  }

  /// After `RegisterEndpoint(id, ep)` a frame for `id` reaches exactly `ep`,
  /// once, with its payload (unless `id` is the acknowledgement id or `ep` is
  /// null), and frames for any other id go where they went before.
  lemma RegisterThenRoute(m: map<u16, Endpoint>, id: u16, ep: Endpoint, h: DmqHeader, d: seq<byte>)
    ensures h.id == id ==>
      Route1(m[id := ep], Frame(h, d)) == (if id != ACK_REMOTE_ID && ep.Invoker? then [Invocation(ep.ref, d)] else [])
    ensures h.id != id ==> Route1(m[id := ep], Frame(h, d)) == Route1(m, Frame(h, d))
  {
  }

  /// Every forwarded frame was received without error and carries payload
  /// bytes: zero-length frames are never forwarded.
  lemma {:induction false} ForwardedAreNonEmpty(polls: seq<Poll>)
    ensures forall i :: 0 <= i < |Forwarded(polls)| ==> |Forwarded(polls)[i].data| > 0
    ensures forall i :: 0 <= i < |Forwarded(polls)| ==>
      exists j :: 0 <= j < |polls| && polls[j].err == 0 && Frame(polls[j].header, polls[j].data) == Forwarded(polls)[i]
    ensures |Forwarded(polls)| <= |polls|
  {
    if |polls| > 0 && !polls[0].exitAfter {
      var p := polls[0];
      var head := if p.err == 0 && |p.data| > 0 then [Frame(p.header, p.data)] else [];
      var f1 := Forwarded(polls[1..]);
      ForwardedAreNonEmpty(polls[1..]);
      assert Forwarded(polls) == head + f1;
      forall i | 0 <= i < |Forwarded(polls)|
        ensures |Forwarded(polls)[i].data| > 0
        ensures exists j :: 0 <= j < |polls| && polls[j].err == 0 && Frame(polls[j].header, polls[j].data) == Forwarded(polls)[i]
      {
        if i < |head| {
          assert polls[0].err == 0 && Frame(polls[0].header, polls[0].data) == Forwarded(polls)[i];
        } else {
          var j1 :| 0 <= j1 < |polls[1..]| && polls[1..][j1].err == 0 &&
                    Frame(polls[1..][j1].header, polls[1..][j1].data) == f1[i - |head|];
          assert polls[j1 + 1] == polls[1..][j1];
          assert Forwarded(polls)[i] == f1[i - |head|];
        }
      }
    } else {
      assert Forwarded(polls) == [];
    }
  }

  /// Nothing received after the exit flag is seen is forwarded.
  lemma {:induction false} NothingAfterExit(before: seq<Poll>, p: Poll, after: seq<Poll>)
    requires p.exitAfter
    ensures Forwarded(before + [p] + after) == Forwarded(before)
  {
    if |before| == 0 {
      assert (before + [p] + after)[0] == p;
    } else {
      assert (before + [p] + after)[1..] == before[1..] + [p] + after;
      NothingAfterExit(before[1..], p, after);
    }
  }

  lemma {:induction false} DeliverAppend(m: map<u16, Endpoint>, a: seq<Frame>, b: seq<Frame>)
    ensures Deliver(m, a + b) == Deliver(m, a) + Deliver(m, b)
  {
    if |a| == 0 {
      assert a + b == b;
    } else {
      assert (a + b)[1..] == a[1..] + b;
      DeliverAppend(m, a[1..], b);
    }
  }

  /// The static `bRecvThreadCreated` of `Start`: one flag for every engine.
  /// `posts` counts the receive loops posted by all engines together.
  class StartFlag {
    var created: bool
    ghost var posts: nat

    ghost predicate Valid()
      reads this
    {
      posts == if created then 1 else 0
    }

    constructor ()
      ensures Valid() && !created
    {
      created := false;
      posts := 0;
    }
  }

  /// The flag is shared: when two engines are started, only the first
  /// creates a receive thread and posts its loop.
  method SecondEngineNeverReceives() returns (firstStarted: bool, secondStarted: bool)
    ensures firstStarted && !secondStarted
  {
    var flag := new StartFlag();
    var a := new NetworkEngine();
    var b := new NetworkEngine();
    a.Start(flag);
    b.Start(flag);
    b.Start(flag);
    firstStarted, secondStarted := a.startedRecv, b.startedRecv;
  }

  class NetworkEngine {
    /// `m_receiveIdMap`.
    var receiveIdMap: map<u16, Endpoint>
    /// Every endpoint invocation made by `Incoming`, in order.
    var invoked: seq<Invocation>
    var recvThreadExit: bool
    /// Whether this engine created `m_recvThread` and posted its loop.
    var startedRecv: bool
    var timerRunning: bool
    var timerConnected: bool
    var statusConnected: bool
    /// The transports' monitor and peer pointers have been set.
    var transportsLinked: bool
    /// The transports have been closed by Stop.
    var transportsClosed: bool
    var route: Route

    constructor ()
      ensures receiveIdMap == map[] && invoked == [] && !recvThreadExit && !startedRecv
      ensures !timerRunning && !timerConnected && !statusConnected && !transportsLinked && !transportsClosed
      ensures route == NoRoute
    {
      receiveIdMap, invoked := map[], [];
      recvThreadExit, startedRecv := false, false;
      timerRunning, timerConnected, statusConnected := false, false, false;
      transportsLinked, transportsClosed, route := false, false, NoRoute;
    }

    /// `Initialize(sendAddr, recvAddr, isServer)` with ZeroMQ: the two Create
    /// results are summed; the dispatcher sends on the transport directly.
    method InitializeZeroMq(sendErr: int, recvErr: int) returns (err: int)
      modifies this`statusConnected, this`transportsLinked, this`route
      ensures err == sendErr + recvErr
      ensures statusConnected && transportsLinked && route == DirectToTransport
    {
      err := 0;
      err := err + sendErr;
      err := err + recvErr;
      statusConnected, transportsLinked := true, true;
      route := DirectToTransport;
    }

    /// `Initialize(sendIp, sendPort, recvIp, recvPort)` with UDP: the two
    /// Create results are summed; the dispatcher goes through the reliable
    /// transport, whatever the results.
    method InitializeUdp(sendErr: int, recvErr: int) returns (err: int)
      modifies this`statusConnected, this`transportsLinked, this`route
      ensures err == sendErr + recvErr
      ensures statusConnected && transportsLinked && route == ThroughReliable
    {
      err := 0;
      err := err + sendErr;
      err := err + recvErr;
      statusConnected, transportsLinked := true, true;
      route := ThroughReliable;
    }

    /// `Initialize(huart)` with the STM32 UART: one shared transport; wired
    /// up whatever its Create returned.
    method InitializeUart(createErr: int) returns (err: int)
      modifies this`statusConnected, this`transportsLinked, this`route
      ensures err == createErr
      ensures statusConnected && transportsLinked && route == ThroughReliable
    {
      err := 0;
      err := err + createErr;
      statusConnected, transportsLinked := true, true;
      route := ThroughReliable;
    }

    /// `Initialize(portName, baudRate)` with the serial port: the status
    /// handler, the transport links and the dispatcher route are set only
    /// when opening the port returned 0.
    method InitializeSerial(createErr: int) returns (err: int)
      modifies this`statusConnected, this`transportsLinked, this`route
      ensures err == createErr
      ensures err == 0 ==> statusConnected && transportsLinked && route == ThroughReliable
      ensures err != 0 ==>
        statusConnected == old(statusConnected) && transportsLinked == old(transportsLinked) && route == old(route)
    {
      err := 0;
      err := err + createErr;
      if err == 0 {
        statusConnected, transportsLinked := true, true;
        route := ThroughReliable;
      }
    }

    /// `Start()`: the first call made by any engine creates the receive
    /// thread and posts its loop; every call (re)starts the 100 ms timeout timer.
    method Start(flag: StartFlag)
      requires flag.Valid()
      modifies flag, this`startedRecv, this`timerRunning, this`timerConnected
      ensures flag.Valid() && flag.created && flag.posts <= 1
      ensures startedRecv == (old(startedRecv) || !old(flag.created))
      ensures timerRunning && timerConnected
    {
      if !flag.created {
        flag.created := true;
        startedRecv := true;
        flag.posts := flag.posts + 1;
      }
      timerConnected := true;
      timerRunning := true;
    }

    /// `Stop()`. Called from another thread it first closes both transports
    /// and ends the receive loop, then stops the timer on the engine thread;
    /// called on the engine thread it only stops the timer.
    method Stop(onEngineThread: bool)
      modifies this`transportsClosed, this`recvThreadExit, this`timerRunning, this`timerConnected, this`statusConnected
      ensures !timerRunning && !timerConnected && !statusConnected
      ensures transportsClosed == (old(transportsClosed) || !onEngineThread)
      ensures recvThreadExit == (old(recvThreadExit) || !onEngineThread)
    {
      if !onEngineThread {
        transportsClosed := true;
        recvThreadExit := true;
      }
      timerRunning := false;
      timerConnected := false;
      statusConnected := false;
    }

    /// `RegisterEndpoint(id, endpoint)`: the last registration for an id wins.
    method RegisterEndpoint(id: u16, ep: Endpoint)
      modifies this`receiveIdMap
      ensures receiveIdMap == old(receiveIdMap)[id := ep]
      ensures forall j :: j in old(receiveIdMap) && j != id ==> j in receiveIdMap && receiveIdMap[j] == old(receiveIdMap)[j]
    {
      receiveIdMap := receiveIdMap[id := ep];
    }

    /// `Incoming(header, arg_data)`.
    method Incoming(h: DmqHeader, d: seq<byte>)
      modifies this`invoked
      ensures invoked == old(invoked) + Route1(receiveIdMap, Frame(h, d))
    {
      if h.id != ACK_REMOTE_ID {
        if h.id in receiveIdMap && receiveIdMap[h.id].Invoker? {
          invoked := invoked + [Invocation(receiveIdMap[h.id].ref, d)];
        }
      }
    }

    /// `RecvThread()` over the polls it makes, each forwarded frame handled
    /// by `Incoming`. The loop ends when the exit flag is seen set or, in
    /// this model, when the polls run out.
    method RecvThread(polls: seq<Poll>)
      modifies this`invoked, this`recvThreadExit
      ensures invoked == old(invoked) + (if old(recvThreadExit) then [] else Deliver(receiveIdMap, Forwarded(polls)))
    {
      if recvThreadExit { return; }
      ghost var m := receiveIdMap;
      ghost var goal := invoked + Deliver(m, Forwarded(polls));
      var i := 0;
      assert polls[i..] == polls;
      while i < |polls| && !recvThreadExit
        invariant 0 <= i <= |polls| && receiveIdMap == m
        invariant goal == invoked + (if recvThreadExit then [] else Deliver(m, Forwarded(polls[i..])))
        decreases |polls| - i
      {
        var p := polls[i];
        ghost var x := if !p.exitAfter && p.err == 0 && |p.data| > 0 then Route1(m, Frame(p.header, p.data)) else [];
        ghost var before := invoked;
        Unroll(m, polls, i);
        PollOnce(p);
        if !p.exitAfter {
          Assoc(before, x, Deliver(m, Forwarded(polls[i + 1..])));
        }
        i := i + 1;
      }
      if !recvThreadExit {
        assert polls[i..] == [];
        assert goal == invoked + [];
      }
    }

    /// The body of the receive loop for one poll.
    method PollOnce(p: Poll)
      modifies this`invoked, this`recvThreadExit
      ensures recvThreadExit == p.exitAfter
      ensures invoked == old(invoked) +
        (if !p.exitAfter && p.err == 0 && |p.data| > 0 then Route1(receiveIdMap, Frame(p.header, p.data)) else [])
    {
      recvThreadExit := p.exitAfter;
      if p.err == 0 && |p.data| > 0 && !recvThreadExit {
        Incoming(p.header, p.data);
      }
    }
  }

  /// One pass of the receive loop: what the remaining polls deliver is what
  /// the next one delivers, then what the rest deliver, unless it sees the exit flag.
  lemma Unroll(m: map<u16, Endpoint>, polls: seq<Poll>, i: nat)
    requires i < |polls|
    ensures var p := polls[i];
      Deliver(m, Forwarded(polls[i..])) ==
        if p.exitAfter then []
        else (if p.err == 0 && |p.data| > 0 then Route1(m, Frame(p.header, p.data)) else []) +
             Deliver(m, Forwarded(polls[i + 1..]))
  {
    var p := polls[i];
    assert polls[i..][0] == p;
    assert polls[i..][1..] == polls[i + 1..];
    if !p.exitAfter && p.err == 0 && |p.data| > 0 {
      DeliverCons(m, Frame(p.header, p.data), Forwarded(polls[i + 1..]));
    } else if !p.exitAfter {
      assert [] + Forwarded(polls[i + 1..]) == Forwarded(polls[i + 1..]);
    }
  }

  lemma Assoc<T>(a: seq<T>, b: seq<T>, c: seq<T>)
    ensures a + (b + c) == (a + b) + c
  {
  }

  lemma DeliverCons(m: map<u16, Endpoint>, f: Frame, rest: seq<Frame>)
    ensures Deliver(m, [f] + rest) == Route1(m, f) + Deliver(m, rest)
  {
    assert ([f] + rest)[1..] == rest;
  }
}
