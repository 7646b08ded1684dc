# defmt TCP logger: connection registry and broadcast, in Dafny

This project models the core of `defmt-logger-tcp`, a global logger for defmt
that serves log frames to every observer connected over TCP. What is modelled:

- the registry: a `taken` flag (`TAKEN`), a list of pending connections
  (`PENDING_STREAMS`) and a list of active connections (`STREAMS`), as the
  fields of the class `TcpLogger.Logger`;
- the accept loop `run`, which pushes each accepted stream, with a fresh
  encoder, onto the pending list (`Logger.Admit`, `Logger.Run`);
- the session operations `acquire`, `release`, `write` and `flush`
  (`Logger.Acquire`, `Logger.Release`, `Logger.Write`, `Logger.Flush`). The
  session flag is a two-state machine. `acquire` when a session is already
  open is a panic, modelled as the `Panicked` outcome, and it changes nothing;
- the promotion `STREAMS.extend(PENDING_STREAMS.drain(..))` (`Logger.Promote`);
- the broadcast `on_all_streams` (`Logger.OnAllStreams`). Its first loop
  (`RunOnEach`) runs the closure on every active connection, in order, and
  collects the peer address of each one it failed on. Its second loop
  (`DropPeers`) does one `retain` per collected address;
- `write_stream` and the four closures handed to the broadcast (`WriteStream`,
  `WriteSlices`, `RunOp`).

A connection is the pair `(TcpStream, Encoder)`. It is modelled as `Conn`: a
`Stream` (a stable handle standing for the socket, plus the peer address that
removal keys on) and an opaque `Encoder` state. The sockets are oracles, and so
is the defmt encoder. `Io` gives the outcome of `set_write_timeout`, of
`write_all` of a slice, and of `flush` for each handle. `Codec` gives
`Encoder::new()` and, for `start_frame`, `write` and `end_frame`, the next
encoder state and the byte slices the encoder hands to its emit callback.

The model follows the code as written. `write_stream` records a failed write
in `result` and then overwrites it with `Ok(())`
(defmt-logger-tcp/src/lib.rs:118-123). So the closures of `acquire`, `release`
and `write` always report success, and their broadcasts never prune a
connection. Only `flush` can prune (`WriteStream`, `FrameNeverFails`, and the
postconditions of `Logger.Acquire`, `Logger.Release` and `Logger.Write`).
The flush oracle may report a failure for any socket. That over-approximates
Rust's standard `TcpStream::flush`, which has no buffer and returns `Ok(())`;
with it, the real program never prunes at all. The standard library is not
part of this model.

Three behaviours of the code are kept as written:

- failed writes are not propagated, as above;
- pruning keys on the peer address, not on the connection's identity. Every
  active connection whose peer matches a failed one's is dropped, including
  ones that succeeded (`FailedPeerGone`);
- `write` and `flush` do not check that a session is open.

The class invariant `Logger.Valid()` says that no socket handle is registered
twice across the two lists. `Promote`, `OnAllStreams`, `Acquire`, `Release`,
`Write` and `Flush` preserve it unconditionally. `Admit` and `Run` are the
exceptions: they preserve it when the sockets they admit are not registered
already and, for `Run`, when no socket is admitted twice.

## Model

| member | source | states |
|---|---|---|
| `TcpLogger.Logger.constructor` | defmt-logger-tcp/src/lib.rs:27-29 | the logger starts idle, with both lists empty and no socket registered twice |
| `TcpLogger.Logger.Admit` | defmt-logger-tcp/src/lib.rs:45-46 | admitting appends exactly that stream, with a fresh encoder, to the end of `pending`; `active` and `taken` are unchanged; no duplicate is introduced when the socket is new |
| `TcpLogger.Logger.Run` | defmt-logger-tcp/src/lib.rs:36-47 | the accept loop over a run of incoming items extends `pending` by exactly what `Listen` admits and ends the way `Listen` says; `active` and `taken` are unchanged; no duplicate is introduced when the admitted sockets are new and distinct |
| `TcpLogger.AcceptOutcome` | defmt-logger-tcp/src/lib.rs:37-43 | an incoming item is admitted if and only if the stream was accepted and its write timeout was set; otherwise the loop panics |
| `TcpLogger.Listen` | defmt-logger-tcp/src/lib.rs:36-47 | the accept loop admits at most one connection per item; it completes if and only if every item was admitted |
| `TcpLogger.ListenSpec` | defmt-logger-tcp/src/lib.rs:36-47 | the admitted connections are the accepted streams in accept order, each with a fresh encoder and a write timeout set; when the loop stops early, its panic is the one for the first item it could not handle (accept failure or timeout failure) |
| `TcpLogger.WriteStream` | defmt-logger-tcp/src/lib.rs:118-123 | `write_stream` hands back `Ok` whatever the socket write does, and whatever the result was before |
| `TcpLogger.WriteSlices` | defmt-logger-tcp/src/lib.rs:68-70 | an encoder closure writes every slice the encoder emits, in order, also after a failed write, and reports `Ok` |
| `TcpLogger.RunOp` | defmt-logger-tcp/src/lib.rs:67-99 | each closure reports what `OpResult` says (always `Ok` for the encoder closures, the socket's flush result for `flush`) and leaves the encoder state `OpEncoder` says |
| `TcpLogger.RunOnEach` | defmt-logger-tcp/src/lib.rs:106-111 | the closure runs on every connection exactly once, in list order, whatever happened to the earlier ones; each connection is updated in place; the collected addresses are those of the failed connections, in order |
| `TcpLogger.DropPeers` | defmt-logger-tcp/src/lib.rs:113-115 | one `retain` per collected address leaves exactly the survivors of `Survivors` |
| `TcpLogger.Logger.OnAllStreams` | defmt-logger-tcp/src/lib.rs:103-116 | the broadcast attempts exactly the old active connections, in order; afterwards `active` is the updated list with every connection whose peer matches a failed one's filtered out; `pending` and `taken` are unchanged; no duplicate is introduced |
| `TcpLogger.Logger.Promote` | defmt-logger-tcp/src/lib.rs:62-65 | `active` becomes the old `active` followed by the old `pending`, in order; `pending` becomes empty |
| `TcpLogger.Logger.Acquire` | defmt-logger-tcp/src/lib.rs:54-72 | reentrant `acquire` panics with "defmt logger taken reentrantly", promotes nothing, broadcasts to no one and changes nothing; otherwise `taken` is set, `pending` is emptied, the start of a frame goes to the old active connections followed by the old pending ones, in order, and none of them is pruned |
| `TcpLogger.Logger.Release` | defmt-logger-tcp/src/lib.rs:74-88 | the end of the frame goes to exactly the old active connections and prunes none of them; then the old pending connections are appended unchanged, in order; `pending` is emptied and `taken` cleared |
| `TcpLogger.Logger.Write` | defmt-logger-tcp/src/lib.rs:90-96 | the encoded bytes go to every active connection, none is pruned, and `taken` and `pending` are unchanged |
| `TcpLogger.Logger.Flush` | defmt-logger-tcp/src/lib.rs:98-100 | every active socket is flushed; the ones whose flush failed are pruned by peer address; encoders, `taken` and `pending` are unchanged |
| `TcpLogger.BroadcastKeepsUnique` | defmt-logger-tcp/src/lib.rs:103-116 | a broadcast never registers a socket twice |
| `TcpLogger.AdmittedMidSession` | defmt-logger-tcp/src/lib.rs:45-100 | a connection admitted while a session is open takes part in none of that session's broadcasts: no connection attempted by any of its writes and flushes, whatever the sockets do on each call, nor by its end of frame, carries the new socket's handle; the next `acquire` succeeds and starts its frame on the new connection with a fresh encoder |
| `Streams.Stepped` | defmt-logger-tcp/src/lib.rs:107-111 | running a closure on every connection keeps the list's length and each entry's socket; only encoder states change |
| `Streams.Retain` | defmt-logger-tcp/src/lib.rs:114 | `retain` never lengthens the list |
| `Streams.RetainMembers` | defmt-logger-tcp/src/lib.rs:114 | `retain` keeps exactly the connections whose peer differs from the given address |
| `Streams.Survivors` | defmt-logger-tcp/src/lib.rs:113-115 | pruning never lengthens the list |
| `Streams.SurvivorsMembers` | defmt-logger-tcp/src/lib.rs:113-115 | a connection survives if and only if it was in the list and its peer was not collected |
| `Streams.RetainSurvivors` | defmt-logger-tcp/src/lib.rs:113-115 | each further `retain` removes one more collected address |
| `Streams.SurvivorsNone` | defmt-logger-tcp/src/lib.rs:113-115 | with no address collected every connection stays, in place |
| `Streams.SurvivorsIsSubsequence` | defmt-logger-tcp/src/lib.rs:113-115 | the survivors keep their relative order |
| `Streams.FailedAddrs` | defmt-logger-tcp/src/lib.rs:106-111 | `streams_to_drop` gets at most one address per connection; `FailedAddrsSpec` says which |
| `Streams.FailedAddrsSnoc` | defmt-logger-tcp/src/lib.rs:107-111 | visiting one more connection collects its peer exactly when the closure failed on it |
| `Streams.FailedAddrsSpec` | defmt-logger-tcp/src/lib.rs:106-111 | an address is collected if and only if some connection with that peer failed |
| `Streams.FrameNeverFails` | defmt-logger-tcp/src/lib.rs:118-123 | a broadcast of an encoder closure collects no address, so it prunes nothing |
| `Streams.FlushKeepsEncoders` | defmt-logger-tcp/src/lib.rs:99 | the flush closure leaves every encoder state as it was |
| `Streams.SuccessfulDistinctSurvive` | defmt-logger-tcp/src/lib.rs:106-115 | a connection whose peer no failed connection shares did not fail, and it is still active after the broadcast with its updated encoder |
| `Streams.FailedPeerGone` | defmt-logger-tcp/src/lib.rs:106-115 | after a connection failed, no connection with its peer address remains |
| `Streams.SurvivorStepped` | defmt-logger-tcp/src/lib.rs:106-115 | every survivor is an updated connection on which the closure did not fail |
| `Streams.SurvivorsUnique` | defmt-logger-tcp/src/lib.rs:113-115 | pruning never makes a socket appear twice |

## Left out

- Binding the listener (`TcpListener::bind` and its panic) and the infinite
  loop itself: `Logger.Run` is the loop over any finite run of incoming items;
  the address and port are not modelled.
- Socket I/O (`accept`, `set_write_timeout`, `write_all`, `flush`): the
  outcomes are the `Io` oracle, and the bytes a peer receives are not
  modelled.
- Closing a pruned socket when its entry is dropped: a pruned connection
  simply leaves the list.
- The `Mutex` locks and the `AtomicBool` memory ordering: each operation is
  one sequential, atomic step, so races between the accept thread and a
  logging thread are not modelled.
- The 100 ms write timeout (`Duration`): a timed-out write is just a failed
  write in the oracles.
- The defmt `Encoder` framing and byte layout: the encoder is the `Codec`
  callback record and its state is opaque.
- `TcpStream::flush` always succeeding: the `Io` oracle lets any flush fail,
  so `Logger.Flush` and `OnAllStreams` cover pruning the real socket never
  triggers.
- `peer_addr().unwrap()` failing: peer addresses are always available.
- `expect` appends the error's debug text to its panic message; the model's
  panic messages carry only the `expect` text, since the error values are
  opaque codes.
- A panic is an outcome value. Process termination and unwinding are not
  modelled.
- The `_defmt_panic` and `_defmt_timestamp` hooks, and the usage example in
  the module comment: they are glue with no logic.
