/** The logger itself: the per-connection write helper and closures, the
    registry of pending and active connections with its session flag, the
    broadcast-and-prune pass, and the accept loop's admission step. Every
    operation is a sequential, atomic step; the locks around the two lists
    and the atomic flag are not modelled. */
module TcpLogger {
  import opened Streams

  /** How a call ends: normally, or in a panic with its message. */
  datatype Outcome = Completed | Panicked(message: string)

  /** One item of `listener.incoming()`. */
  datatype Incoming = Accepted(stream: Stream) | AcceptFailed

  /** What the accept loop does with a run of incoming items: the connections
      it admits to the pending list, and how it ends. */
  datatype Listening = Listening(admitted: seq<Conn>, outcome: Outcome)

  /** The outcome of handling one incoming item before it is admitted: the
      item is admitted only if the stream was accepted and its write timeout
      was set. A failure panics through `expect`; the panic message is the
      `expect` text, without the error's debug text that `expect` appends. */
  function AcceptOutcome(x: Incoming, io: Io): (o: Outcome)
    ensures o.Completed? <==> x.Accepted? && io.setWriteTimeout(x.stream.handle).Ok?
  {
    match x
    case AcceptFailed => Panicked("failed to accept connection")
    case Accepted(s) =>
      if io.setWriteTimeout(s.handle).Err? then Panicked("failed to set write timeout") else Completed
  }

  /** The accept loop over `incoming`: every stream accepted and configured
      before the first failure is admitted, in accept order, with a fresh
      encoder; the loop panics at the first failure. */
  function Listen(incoming: seq<Incoming>, env: Env): (l: Listening)
    ensures |l.admitted| <= |incoming|
    ensures l.outcome == Completed <==> |l.admitted| == |incoming|
  {
    if incoming == [] then Listening([], Completed)
    else
      var o := AcceptOutcome(incoming[0], env.io);
      if o.Panicked? then Listening([], o)
      else
        var rest := Listen(incoming[1..], env);
        Listening([Conn(incoming[0].stream, env.codec.initial)] + rest.admitted, rest.outcome)
  }

  /** The accept loop admits the accepted streams in accept order, each with
      a fresh encoder, and stops at the first item it cannot handle. */
  lemma {:induction false} ListenSpec(incoming: seq<Incoming>, env: Env)
    ensures forall k :: 0 <= k < |Listen(incoming, env).admitted| ==>
              incoming[k] == Accepted(Listen(incoming, env).admitted[k].stream) &&
              AcceptOutcome(incoming[k], env.io) == Completed &&
              Listen(incoming, env).admitted[k].encoder == env.codec.initial
    ensures |Listen(incoming, env).admitted| < |incoming| ==>
              Listen(incoming, env).outcome == AcceptOutcome(incoming[|Listen(incoming, env).admitted|], env.io)
  {
    if incoming != [] && AcceptOutcome(incoming[0], env.io).Completed? {
      ListenSpec(incoming[1..], env);
      var rest := Listen(incoming[1..], env).admitted;
      forall k | 0 <= k < |Listen(incoming, env).admitted|
        ensures incoming[k] == Accepted(Listen(incoming, env).admitted[k].stream)
      {
        if k > 0 {
          assert Listen(incoming, env).admitted[k] == rest[k - 1];
          assert incoming[k] == incoming[1..][k - 1];
        }
      }
      if |Listen(incoming, env).admitted| < |incoming| {
        assert incoming[|Listen(incoming, env).admitted|] == incoming[1..][|rest|];
      }
    }
  }

  lemma ListenUnfold(incoming: seq<Incoming>, i: nat, env: Env)
    requires i < |incoming|
    ensures AcceptOutcome(incoming[i], env.io).Panicked? ==>
              Listen(incoming[i..], env) == Listening([], AcceptOutcome(incoming[i], env.io))
    ensures AcceptOutcome(incoming[i], env.io).Completed? ==>
              incoming[i].Accepted? &&
              Listen(incoming[i..], env).admitted ==
                [Conn(incoming[i].stream, env.codec.initial)] + Listen(incoming[i + 1..], env).admitted &&
              Listen(incoming[i..], env).outcome == Listen(incoming[i + 1..], env).outcome
  {
    assert incoming[i..][0] == incoming[i] && incoming[i..][1..] == incoming[i + 1..];
  }

  /** `write_stream`: writes one slice to the socket. The error of a failed
      write is recorded in `result` and then overwritten, so the result handed
      back is always `Ok`. */
  method WriteStream(handle: nat, bytes: Bytes, result: IoResult, io: Io) returns (result': IoResult)
    ensures result' == Ok
  {
    result' := result;
    var written := io.writeAll(handle, bytes);
    if written.Err? {
      result' := written;
    }
    result' := Ok;
  }

  /** The body of an encoder closure after the encoder ran: `result` starts
      as `Ok` and every emitted slice goes through `write_stream`, the later
      ones even when an earlier write failed. */
  method WriteSlices(handle: nat, slices: seq<Bytes>, io: Io) returns (result: IoResult, ghost written: seq<Bytes>)
    ensures result == Ok
    ensures written == slices
  {
    result := Ok;
    written := [];
    for i := 0 to |slices|
      invariant result == Ok
      invariant written == slices[..i]
    {
      result := WriteStream(handle, slices[i], result, io);
      written := written + [slices[i]];
    }
  }

  /** One of the closures handed to `on_all_streams`, applied to one
      connection: what it reports and the encoder state it leaves. */
  method RunOp(op: StreamOp, c: Conn, env: Env) returns (result: IoResult, encoder: Encoder)
    ensures result == OpResult(op, c, env)
    ensures encoder == OpEncoder(op, c, env)
    ensures op.Frame? ==> result == Ok
  {
    match op
    case Frame(part) =>
      var emission := Emit(part, c.encoder, env.codec);
      ghost var written;
      result, written := WriteSlices(c.stream.handle, emission.slices, env.io);
      encoder := emission.next;
    case Flush =>
      result := env.io.flush(c.stream.handle);
      encoder := c.encoder;
  }

  /** The first loop of `on_all_streams`: run `op` on each connection in
      place, in order, whatever happened to the earlier ones, and collect the
      peer of every connection it failed on. `attempts` lists the connections
      `op` ran on. */
  method RunOnEach(streams: seq<Conn>, op: StreamOp, env: Env)
      returns (stepped: seq<Conn>, toDrop: seq<SocketAddr>, ghost attempts: seq<Conn>)
    ensures attempts == streams
    ensures stepped == Stepped(streams, op, env)
    ensures toDrop == FailedAddrs(streams, op, env)
  {
    stepped := streams;
    toDrop := [];
    attempts := [];
    var i := 0;
    while i < |stepped|
      invariant 0 <= i <= |stepped| == |streams|
      invariant forall k :: 0 <= k < i ==> stepped[k] == Step(op, streams[k], env)
      invariant forall k :: i <= k < |stepped| ==> stepped[k] == streams[k]
      invariant toDrop == FailedAddrs(streams[..i], op, env)
      invariant attempts == streams[..i]
    {
      var conn := stepped[i];
      var result, encoder := RunOp(op, conn, env);
      attempts := attempts + [conn];
      stepped := stepped[i := Conn(conn.stream, encoder)];
      if result.Err? {
        toDrop := toDrop + [conn.stream.peer];
      }
      FailedAddrsSnoc(streams, i, op, env);
      i := i + 1;
    }
    assert streams[..i] == streams;
  }

  /** The second loop of `on_all_streams`: one `retain` per collected peer. */
  method DropPeers(streams: seq<Conn>, toDrop: seq<SocketAddr>) returns (kept: seq<Conn>)
    ensures kept == Survivors(streams, toDrop)
  {
    kept := streams;
    SurvivorsNone(streams);
    for j := 0 to |toDrop|
      invariant kept == Survivors(streams, toDrop[..j])
    {
      RetainSurvivors(streams, toDrop[..j], toDrop[j]);
      assert toDrop[..j + 1] == toDrop[..j] + [toDrop[j]];
      kept := Retain(kept, toDrop[j]);
    }
    assert toDrop[..|toDrop|] == toDrop;
  }

  /** The process-wide state: the `TAKEN` flag, `PENDING_STREAMS` and
      `STREAMS`. */
  class Logger {
    var taken: bool
    var pending: seq<Conn>
    var active: seq<Conn>

    /** No socket is registered twice across the two lists. */
    ghost predicate Valid()
      reads this
    {
      UniqueHandles(active + pending)
    }

    constructor ()
      ensures !taken && pending == [] && active == []
      ensures Valid()
    {
      taken := false;
      pending := [];
      active := [];
    }

    /** The body of the accept loop once a stream is configured: push it,
        with a fresh encoder, onto the pending list. */
    method Admit(stream: Stream, codec: Codec)
      modifies this
      ensures pending == old(pending) + [Conn(stream, codec.initial)]
      ensures active == old(active) && taken == old(taken)
      ensures old(Valid()) && stream.handle !in Handles(old(active) + old(pending)) ==> Valid()
    {
      ghost var registered := active + pending;
      pending := pending + [Conn(stream, codec.initial)];
      assert active + pending == registered + [Conn(stream, codec.initial)];
      if UniqueHandles(registered) && stream.handle !in Handles(registered) {
        forall c, d | c in registered && d in [Conn(stream, codec.initial)]
          ensures c.stream.handle != d.stream.handle
        {
          var k :| 0 <= k < |registered| && registered[k] == c;
          assert Handles(registered)[k] == c.stream.handle;
        }
        UniqueAppend(registered, [Conn(stream, codec.initial)]);
      }
    }

    /** `run` over a finite run of incoming items: configure each accepted
        stream's write timeout and admit it, panicking at the first failure.
        No socket is registered twice if none of the admitted ones was
        registered already and none is admitted twice. */
    method Run(incoming: seq<Incoming>, env: Env) returns (r: Outcome)
      modifies this
      ensures pending == old(pending) + Listen(incoming, env).admitted
      ensures r == Listen(incoming, env).outcome
      ensures active == old(active) && taken == old(taken)
      ensures UniqueHandles(old(active) + old(pending) + Listen(incoming, env).admitted) ==> Valid()
    {
      var i := 0;
      while i < |incoming|
        invariant 0 <= i <= |incoming|
        invariant old(pending) + Listen(incoming, env).admitted == pending + Listen(incoming[i..], env).admitted
        invariant Listen(incoming, env).outcome == Listen(incoming[i..], env).outcome
        invariant active == old(active) && taken == old(taken)
      {
        ListenUnfold(incoming, i, env);
        match incoming[i] {
          case AcceptFailed =>
            ConcatAssoc(active, old(pending), Listen(incoming, env).admitted);
            r := Panicked("failed to accept connection");
            return;
          case Accepted(stream) =>
            var configured := env.io.setWriteTimeout(stream.handle);
            if configured.Err? {
              ConcatAssoc(active, old(pending), Listen(incoming, env).admitted);
              r := Panicked("failed to set write timeout");
              return;
            }
            Admit(stream, env.codec);
            i := i + 1;
        }
      }
      ConcatAssoc(active, old(pending), Listen(incoming, env).admitted);
      r := Completed;
    }

    /** `STREAMS.extend(PENDING_STREAMS.drain(..))`: every pending connection
        moves, in order, to the end of the active list. */
    method Promote()
      modifies this
      ensures active == old(active) + old(pending)
      ensures pending == [] && taken == old(taken)
      ensures old(Valid()) ==> Valid()
    {
      active := active + pending;
      pending := [];
      assert active + pending == old(active) + old(pending);
    }

    /** `on_all_streams`: run `op` on every active connection, in order, and
        collect the peers of those it failed on; then drop every connection
        whose peer was collected. `attempts` lists the connections `op` ran
        on. */
    method OnAllStreams(op: StreamOp, env: Env) returns (ghost attempts: seq<Conn>)
      modifies this
      ensures attempts == old(active)
      ensures active == Survivors(Stepped(old(active), op, env), FailedAddrs(old(active), op, env))
      ensures pending == old(pending) && taken == old(taken)
      ensures old(Valid()) ==> Valid()
    {
      var streams := active;
      var toDrop;
      streams, toDrop, attempts := RunOnEach(streams, op, env);
      streams := DropPeers(streams, toDrop);
      if UniqueHandles(old(active) + pending) {
        BroadcastKeepsUnique(old(active), pending, op, env);
      }
      active := streams;
    }

    /** `acquire`: a second acquire before `release` panics and changes
        nothing. Otherwise the flag is set, the pending connections are
        promoted and the start of a frame is broadcast; the encoder closures
        never report failure, so no connection is pruned. */
    method Acquire(env: Env) returns (r: Outcome, ghost attempts: seq<Conn>)
      modifies this
      ensures old(taken) ==> r == Panicked("defmt logger taken reentrantly") && attempts == []
      ensures old(taken) ==> taken && pending == old(pending) && active == old(active)
      ensures !old(taken) ==> r == Completed && taken && pending == []
      ensures !old(taken) ==> attempts == old(active) + old(pending)
      ensures !old(taken) ==> active == Stepped(old(active) + old(pending), Frame(StartFrame), env)
      ensures old(Valid()) ==> Valid()
    {
      if taken {
        r := Panicked("defmt logger taken reentrantly");
        attempts := [];
        return;
      }
      taken := true;
      Promote();
      ghost var promoted := active;
      attempts := OnAllStreams(Frame(StartFrame), env);
      FrameNeverFails(promoted, StartFrame, env);
      SurvivorsNone(Stepped(promoted, Frame(StartFrame), env));
      r := Completed;
    }

    /** `release`: broadcast the end of the frame over the active
        connections, then promote the pending ones, then clear the flag. The
        connections promoted here receive nothing of the frame just ended. */
    method Release(env: Env) returns (ghost attempts: seq<Conn>)
      modifies this
      ensures attempts == old(active)
      ensures active == Stepped(old(active), Frame(EndFrame), env) + old(pending)
      ensures pending == [] && !taken
      ensures old(Valid()) ==> Valid()
    {
      ghost var before := active;
      attempts := OnAllStreams(Frame(EndFrame), env);
      FrameNeverFails(before, EndFrame, env);
      SurvivorsNone(Stepped(before, Frame(EndFrame), env));
      Promote();
      taken := false;
    }

    /** `write`: broadcast the encoded bytes; never prunes, and touches
        neither the flag nor the pending list. */
    method Write(bytes: Bytes, env: Env) returns (ghost attempts: seq<Conn>)
      modifies this
      ensures attempts == old(active)
      ensures active == Stepped(old(active), Frame(FramePart.Write(bytes)), env)
      ensures pending == old(pending) && taken == old(taken)
      ensures old(Valid()) ==> Valid()
    {
      ghost var before := active;
      attempts := OnAllStreams(Frame(FramePart.Write(bytes)), env);
      FrameNeverFails(before, FramePart.Write(bytes), env);
      SurvivorsNone(Stepped(before, Frame(FramePart.Write(bytes)), env));
    }

    /** `flush`: flush every active socket and prune the connections whose
        flush failed, by peer address; touches neither the flag nor the
        pending list. */
    method Flush(env: Env) returns (ghost attempts: seq<Conn>)
      modifies this
      ensures attempts == old(active)
      ensures active == Survivors(old(active), FailedAddrs(old(active), StreamOp.Flush, env))
      ensures pending == old(pending) && taken == old(taken)
      ensures old(Valid()) ==> Valid()
    {
      ghost var before := active;
      attempts := OnAllStreams(StreamOp.Flush, env);
      FlushKeepsEncoders(before, env);
    }
  }

  /** A broadcast never registers a socket twice. */
  lemma BroadcastKeepsUnique(s: seq<Conn>, p: seq<Conn>, op: StreamOp, env: Env)
    requires UniqueHandles(s + p)
    ensures UniqueHandles(Survivors(Stepped(s, op, env), FailedAddrs(s, op, env)) + p)
  {
    UniqueSameStreams(s + p, Stepped(s, op, env) + p);
    SurvivorsAppendUnique(Stepped(s, op, env), FailedAddrs(s, op, env), p);
  }

  /** A call the logging front end can make inside an open session, with the
      socket outcomes in force while it runs. */
  datatype SessionCall = WriteCall(bytes: Bytes, io: Io) | FlushCall(io: Io)

  /** A connection admitted while a session is open takes no part in any of
      that session's broadcasts, whatever writes and flushes follow and
      however the sockets behave meanwhile, nor in its end of frame; and the
      next session starts its frame on it. */
  method AdmittedMidSession(l: Logger, stream: Stream, calls: seq<SessionCall>,
                            codec: Codec, endIo: Io, nextIo: Io)
      returns (r: Outcome, ghost inSession: seq<Conn>, ghost nextStart: seq<Conn>)
    requires l.taken
    requires stream.handle !in Handles(l.active)
    modifies l
    ensures forall c :: c in inSession ==> c.stream.handle != stream.handle
    ensures r == Completed && l.taken
    ensures Conn(stream, codec.initial) in nextStart
  {
    var admitted := Conn(stream, codec.initial);
    forall c | c in l.active ensures c.stream.handle != stream.handle {
      var k :| 0 <= k < |l.active| && l.active[k] == c;
      assert Handles(l.active)[k] == c.stream.handle;
    }
    l.Admit(stream, codec);
    inSession := [];
    for i := 0 to |calls|
      invariant l.taken
      invariant admitted in l.pending
      invariant forall c :: c in l.active ==> c.stream.handle != stream.handle
      invariant forall c :: c in inSession ==> c.stream.handle != stream.handle
    {
      ghost var before := l.active;
      ghost var attempts;
      match calls[i] {
        case WriteCall(bytes, io) =>
          attempts := l.Write(bytes, Env(codec, io));
          forall c | c in l.active ensures c.stream.handle != stream.handle {
            var k :| 0 <= k < |l.active| && l.active[k] == c;
            assert c.stream == before[k].stream;
          }
        case FlushCall(io) =>
          attempts := l.Flush(Env(codec, io));
          SurvivorsMembers(before, FailedAddrs(before, StreamOp.Flush, Env(codec, io)));
      }
      assert attempts == before;
      inSession := inSession + attempts;
    }
    var ended := l.Release(Env(codec, endIo));
    inSession := inSession + ended;
    assert admitted in l.active;
    r, nextStart := l.Acquire(Env(codec, nextIo));
  }
}
