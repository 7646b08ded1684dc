/** Data model of the TCP logger's connection registry, the oracles that stand
    for the sockets and the frame encoder, and the specification functions of
    one broadcast (`on_all_streams`) with the lemmas about them. */
module Streams {

  newtype byte = x: int | 0 <= x < 256
  type Bytes = seq<byte>

  /** A peer's socket address. Removal after a failed broadcast keys on it. */
  datatype SocketAddr = SocketAddr(ip: seq<byte>, port: nat)

  /** What the logger uses of a `TcpStream`: a stable handle standing for the
      socket itself, and the address of its peer. */
  datatype Stream = Stream(handle: nat, peer: SocketAddr)

  /** The state of the external frame encoder. The model never looks inside it:
      only the codec callbacks below read and produce it. */
  datatype Encoder = Encoder(state: nat)

  /** One registry entry, the pair `(TcpStream, Encoder)`. */
  datatype Conn = Conn(stream: Stream, encoder: Encoder)

  /** `io::Result<()>`; the error kind is kept as an opaque code. */
  datatype IoResult = Ok | Err(code: int)

  /** What one encoder call does: its next state, and the byte slices it hands
      to its emit callback, in the order it hands them. */
  datatype Emission = Emission(next: Encoder, slices: seq<Bytes>)

  /** The external encoder as callbacks: `Encoder::new()`, `start_frame`,
      `write` and `end_frame`. */
  datatype Codec = Codec(
    initial: Encoder,
    startFrame: Encoder -> Emission,
    write: (Encoder, Bytes) -> Emission,
    endFrame: Encoder -> Emission)

  /** The sockets as oracles, keyed on the stream handle: the outcome of
      `set_write_timeout`, of `write_all` of a slice, and of `flush`. */
  datatype Io = Io(
    setWriteTimeout: nat -> IoResult,
    writeAll: (nat, Bytes) -> IoResult,
    flush: nat -> IoResult)

  datatype Env = Env(codec: Codec, io: Io)

  /** The part of a frame an encoder closure produces. */
  datatype FramePart = StartFrame | Write(bytes: Bytes) | EndFrame

  /** The per-connection closures handed to `on_all_streams`: one that runs the
      encoder on a frame part and writes what it emits, and the socket flush. */
  datatype StreamOp = Frame(part: FramePart) | Flush

  function Emit(part: FramePart, e: Encoder, codec: Codec): (emission: Emission) {
    match part
    case StartFrame => codec.startFrame(e)
    case Write(b) => codec.write(e, b)
    case EndFrame => codec.endFrame(e)
  }

  /** The result the closure for `op` reports for `c`. An encoder closure
      reports `Ok` whatever its socket writes do, because `write_stream`
      overwrites a recorded error with `Ok`; the flush closure reports what the
      socket's flush reports. */
  function OpResult(op: StreamOp, c: Conn, env: Env): (result: IoResult) {
    match op
    case Frame(_) => Ok
    case Flush => env.io.flush(c.stream.handle)
  }

  predicate Fails(op: StreamOp, c: Conn, env: Env) {
    OpResult(op, c, env).Err?
  }

  /** The encoder state `op` leaves in `c`. */
  function OpEncoder(op: StreamOp, c: Conn, env: Env): (e: Encoder) {
    match op
    case Frame(part) => Emit(part, c.encoder, env.codec).next
    case Flush => c.encoder
  }

  /** The connection after `op` ran on it (the pass of `iter_mut`). */
  function Step(op: StreamOp, c: Conn, env: Env): (stepped: Conn) {
    Conn(c.stream, OpEncoder(op, c, env))
  }

  /** Every connection of `s` after `op` ran on it, in place. */
  function Stepped(s: seq<Conn>, op: StreamOp, env: Env): (r: seq<Conn>)
    ensures |r| == |s|
    ensures forall i :: 0 <= i < |s| ==> r[i].stream == s[i].stream
  {
    seq(|s|, i requires 0 <= i < |s| => Step(op, s[i], env))
  }

  /** The peer addresses collected in `streams_to_drop`, in the order the
      failing connections were met: at most one per connection. */
  function FailedAddrs(s: seq<Conn>, op: StreamOp, env: Env): (r: seq<SocketAddr>)
    ensures |r| <= |s|
    decreases |s|
  {
    if s == [] then []
    else
      var last := s[|s| - 1];
      FailedAddrs(s[..|s| - 1], op, env) + (if Fails(op, last, env) then [last.stream.peer] else [])
  }

  /** `Vec::retain(|(s, _)| s.peer_addr() != peer)`: drops exactly the
      connections whose peer is `peer` and keeps every other one. */
  function Retain(s: seq<Conn>, peer: SocketAddr): (r: seq<Conn>)
    ensures |r| <= |s|
  {
    if s == [] then []
    else (if s[0].stream.peer != peer then [s[0]] else []) + Retain(s[1..], peer)
  }

  /** The connections of `s` whose peer is not in `drop`, in their order:
      what is left of `s` after one `retain` per address of `drop`. */
  function Survivors(s: seq<Conn>, drop: seq<SocketAddr>): (r: seq<Conn>)
    ensures |r| <= |s|
  {
    if s == [] then []
    else (if s[0].stream.peer !in drop then [s[0]] else []) + Survivors(s[1..], drop)
  }

  /** `retain` keeps exactly the connections whose peer differs. */
  lemma {:induction false} RetainMembers(s: seq<Conn>, peer: SocketAddr)
    ensures forall c :: c in Retain(s, peer) <==> c in s && c.stream.peer != peer
  {
    if s != [] {
      RetainMembers(s[1..], peer);
      assert s == [s[0]] + s[1..];
    }
  }

  /** Exactly the connections whose peer is not to be dropped survive. */
  lemma {:induction false} SurvivorsMembers(s: seq<Conn>, drop: seq<SocketAddr>)
    ensures forall c :: c in Survivors(s, drop) <==> c in s && c.stream.peer !in drop
  {
    if s != [] {
      SurvivorsMembers(s[1..], drop);
      assert s == [s[0]] + s[1..];
    }
  }

  /** `t` is `s` with some elements left out, the rest in their order. */
  predicate IsSubsequence(t: seq<Conn>, s: seq<Conn>) {
    t == [] ||
    (s != [] && ((t[0] == s[0] && IsSubsequence(t[1..], s[1..])) || IsSubsequence(t, s[1..])))
  }

  function Handles(s: seq<Conn>): (hs: seq<nat>) {
    seq(|s|, i requires 0 <= i < |s| => s[i].stream.handle)
  }

  lemma ConcatAssoc(a: seq<Conn>, p: seq<Conn>, x: seq<Conn>)
    ensures a + (p + x) == a + p + x
  {
  }

  /** No socket is registered twice. */
  predicate UniqueHandles(s: seq<Conn>) {
    forall i, j :: 0 <= i < j < |s| ==> s[i].stream.handle != s[j].stream.handle
  }

  // ---------------------------------------------------------------------------
  // Lemmas about one broadcast

  /** An address is collected for removal if and only if some connection with
      that peer failed. */
  lemma {:induction false} FailedAddrsSpec(s: seq<Conn>, op: StreamOp, env: Env, a: SocketAddr)
    ensures a in FailedAddrs(s, op, env) <==>
            exists i :: 0 <= i < |s| && Fails(op, s[i], env) && s[i].stream.peer == a
    decreases |s|
  {
    if s != [] {
      var init := s[..|s| - 1];
      FailedAddrsSpec(init, op, env, a);
      if a in FailedAddrs(s, op, env) {
        if a in FailedAddrs(init, op, env) {
          var i :| 0 <= i < |init| && Fails(op, init[i], env) && init[i].stream.peer == a;
          assert s[i] == init[i];
        } else {
          assert Fails(op, s[|s| - 1], env) && s[|s| - 1].stream.peer == a;
        }
      }
      if exists i :: 0 <= i < |s| && Fails(op, s[i], env) && s[i].stream.peer == a {
        var i :| 0 <= i < |s| && Fails(op, s[i], env) && s[i].stream.peer == a;
        if i < |s| - 1 {
          assert init[i] == s[i];
        }
      }
    }
  }

  /** Meeting one more connection collects its peer exactly when it fails. */
  lemma FailedAddrsSnoc(s: seq<Conn>, i: nat, op: StreamOp, env: Env)
    requires i < |s|
    ensures FailedAddrs(s[..i + 1], op, env) ==
            FailedAddrs(s[..i], op, env) + (if Fails(op, s[i], env) then [s[i].stream.peer] else [])
  {
    assert s[..i + 1][..i] == s[..i];
  }

  /** An encoder closure never reports failure, so a broadcast of a frame part
      collects no address at all. */
  lemma {:induction false} FrameNeverFails(s: seq<Conn>, part: FramePart, env: Env)
    ensures FailedAddrs(s, Frame(part), env) == []
    decreases |s|
  {
    if s != [] {
      FrameNeverFails(s[..|s| - 1], part, env);
    }
  }

  /** With nothing to drop every connection survives. */
  lemma {:induction false} SurvivorsNone(s: seq<Conn>)
    ensures Survivors(s, []) == s
  {
    if s != [] {
      SurvivorsNone(s[1..]);
    }
  }

  /** The flush closure leaves every encoder as it was. */
  lemma FlushKeepsEncoders(s: seq<Conn>, env: Env)
    ensures Stepped(s, Flush, env) == s
  {
  }

  lemma {:induction false} RetainAppend(x: seq<Conn>, y: seq<Conn>, peer: SocketAddr)
    ensures Retain(x + y, peer) == Retain(x, peer) + Retain(y, peer)
  {
    if x != [] {
      assert (x + y)[1..] == x[1..] + y;
      RetainAppend(x[1..], y, peer);
    } else {
      assert x + y == y;
    }
  }

  /** One more `retain` removes one more address: the second loop of
      `on_all_streams` computes `Survivors` address by address. */
  lemma {:induction false} RetainSurvivors(s: seq<Conn>, drop: seq<SocketAddr>, peer: SocketAddr)
    ensures Retain(Survivors(s, drop), peer) == Survivors(s, drop + [peer])
  {
    if s != [] {
      var head := if s[0].stream.peer !in drop then [s[0]] else [];
      RetainAppend(head, Survivors(s[1..], drop), peer);
      RetainSurvivors(s[1..], drop, peer);
      if head != [] {
        assert head[1..] == [];
      }
    }
  }

  /** The survivors keep their relative order. */
  lemma {:induction false} SurvivorsIsSubsequence(s: seq<Conn>, drop: seq<SocketAddr>)
    ensures IsSubsequence(Survivors(s, drop), s)
  {
    if s != [] {
      SurvivorsIsSubsequence(s[1..], drop);
      var r := Survivors(s, drop);
      if s[0].stream.peer !in drop {
        assert r[0] == s[0] && r[1..] == Survivors(s[1..], drop);
      } else {
        assert r == Survivors(s[1..], drop);
      }
    }
  }

  /** A connection that succeeded and shares its peer with no failed
      connection is still active after the broadcast, with the encoder state
      the closure left in it. */
  lemma SuccessfulDistinctSurvive(s: seq<Conn>, op: StreamOp, env: Env, i: nat)
    requires i < |s|
    requires forall j :: 0 <= j < |s| && Fails(op, s[j], env) ==> s[j].stream.peer != s[i].stream.peer
    ensures !Fails(op, s[i], env)
    ensures Step(op, s[i], env) in Survivors(Stepped(s, op, env), FailedAddrs(s, op, env))
  {
    FailedAddrsSpec(s, op, env, s[i].stream.peer);
    SurvivorsMembers(Stepped(s, op, env), FailedAddrs(s, op, env));
    assert Stepped(s, op, env)[i] == Step(op, s[i], env);
  }

  /** After a connection failed, no connection with its peer is left: the
      failed one is pruned, and so is every other one sharing its address. */
  lemma FailedPeerGone(s: seq<Conn>, op: StreamOp, env: Env, i: nat)
    requires i < |s|
    requires Fails(op, s[i], env)
    ensures forall c :: c in Survivors(Stepped(s, op, env), FailedAddrs(s, op, env)) ==>
                        c.stream.peer != s[i].stream.peer
  {
    FailedAddrsSpec(s, op, env, s[i].stream.peer);
    SurvivorsMembers(Stepped(s, op, env), FailedAddrs(s, op, env));
  }

  /** Whatever survives a broadcast is one of the connections it ran on. */
  lemma SurvivorStepped(s: seq<Conn>, op: StreamOp, env: Env, c: Conn)
    requires c in Survivors(Stepped(s, op, env), FailedAddrs(s, op, env))
    ensures exists i :: 0 <= i < |s| && c == Step(op, s[i], env) && !Fails(op, s[i], env)
  {
    var st := Stepped(s, op, env);
    SurvivorsMembers(st, FailedAddrs(s, op, env));
    var i :| 0 <= i < |st| && st[i] == c;
    if Fails(op, s[i], env) {
      FailedAddrsSpec(s, op, env, s[i].stream.peer);
    }
  }

  // ---------------------------------------------------------------------------
  // No connection registered twice

  lemma UniqueAppend(x: seq<Conn>, y: seq<Conn>)
    requires UniqueHandles(x) && UniqueHandles(y)
    requires forall c, d :: c in x && d in y ==> c.stream.handle != d.stream.handle
    ensures UniqueHandles(x + y)
  {
  }

  lemma UniqueSameStreams(x: seq<Conn>, y: seq<Conn>)
    requires |x| == |y|
    requires forall i :: 0 <= i < |x| ==> x[i].stream == y[i].stream
    requires UniqueHandles(x)
    ensures UniqueHandles(y)
  {
  }

  /** Pruning a broadcast's failures never registers a socket twice. */
  lemma {:induction false} SurvivorsUnique(s: seq<Conn>, drop: seq<SocketAddr>)
    requires UniqueHandles(s)
    ensures UniqueHandles(Survivors(s, drop))
  {
    if s != [] {
      SurvivorsUnique(s[1..], drop);
      SurvivorsMembers(s[1..], drop);
      var head := if s[0].stream.peer !in drop then [s[0]] else [];
      forall c, d | c in head && d in Survivors(s[1..], drop)
        ensures c.stream.handle != d.stream.handle
      {
        var k :| 0 <= k < |s[1..]| && s[1..][k] == d;
        assert s[k + 1] == d;
      }
      UniqueAppend(head, Survivors(s[1..], drop));
    }
  }

  /** The registry stays free of duplicates when the active part is pruned and
      the pending part is left alone. */
  lemma SurvivorsAppendUnique(s: seq<Conn>, drop: seq<SocketAddr>, p: seq<Conn>)
    requires UniqueHandles(s + p)
    ensures UniqueHandles(Survivors(s, drop) + p)
  {
    assert UniqueHandles(s) by {
      forall i, j | 0 <= i < j < |s| ensures s[i].stream.handle != s[j].stream.handle {
        assert s[i] == (s + p)[i] && s[j] == (s + p)[j];
      }
    }
    assert UniqueHandles(p) by {
      forall i, j | 0 <= i < j < |p| ensures p[i].stream.handle != p[j].stream.handle {
        assert p[i] == (s + p)[|s| + i] && p[j] == (s + p)[|s| + j];
      }
    }
    SurvivorsUnique(s, drop);
    SurvivorsMembers(s, drop);
    forall c, d | c in Survivors(s, drop) && d in p
      ensures c.stream.handle != d.stream.handle
    {
      var i :| 0 <= i < |s| && s[i] == c;
      var j :| 0 <= j < |p| && p[j] == d;
      assert (s + p)[i] == c && (s + p)[|s| + j] == d;
    }
    UniqueAppend(Survivors(s, drop), p);
  }
}
