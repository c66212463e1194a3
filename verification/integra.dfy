/** The device session: the one connection to the receiver, the set of
    live clients, the cache of the last parameter seen per command, and
    the arms of the dispatch loop as sequential transitions.

    Goroutines and channels are abstracted away. A client's receive
    channel is unbuffered, so whether a non-blocking send to it succeeds
    is an oracle: the set `ready` of clients blocked in Receive at that
    moment. The result of writing to the connection is an oracle too.
 */
module Integra {
  import opened Wrappers
  import opened Eiscp

  type ClientId = nat

  /** Known device state: command -> most recently received parameter. */
  type Cache = map<seq<Byte>, seq<Byte>>

  datatype TransportError = TransportError(reason: string)

  datatype SendError = InitFailed(initError: InitError) | WriteFailed(writeError: TransportError)

  /** What a client's Receive call yields: the next message delivered to
      it, the error for a closed channel, or nothing yet (still blocked). */
  datatype Receipt = Received(message: Message) | ChannelClosed | Blocked

  datatype Device = Device(
    state: Cache,                             // last parameter per command
    txbuf: Packet,                            // transmit buffer, reused by every send
    live: set<ClientId>,                      // clients the broadcast reaches
    closed: set<ClientId>,                    // clients whose receive channel is closed
    delivered: map<ClientId, seq<Message>>,   // messages each client has been handed
    writes: seq<Packet>,                      // frames written to the connection, in order
    nextId: ClientId)                         // identity of the next client created

  /** The client bookkeeping of every reachable session: each client is
      either live or closed, never both, and client identities are fresh. */
  predicate Clients(d: Device) {
    && d.live !! d.closed
    && d.delivered.Keys == d.live + d.closed
    && (forall c :: c in d.delivered ==> c < d.nextId)
  }

  /** Every reachable session: the client bookkeeping holds and the
      transmit buffer keeps the template header. */
  predicate Inv(d: Device) {
    Clients(d) && SameTemplate(d.txbuf, NewPacket())
  }

  /** The session right after the connection is made. */
  function Connected(): (d: Device)
    ensures Inv(d)
    ensures d.live == {} && d.closed == {} && d.state == map[] && d.writes == []
  {
    Device(map[], NewPacket(), {}, {}, map[], [], 0)
  }

  // ---------------------------------------------------------------------
  // State cache
  // ---------------------------------------------------------------------

  /** Records a received parameter for its command. */
  function Observe(cache: Cache, command: seq<Byte>, parameter: seq<Byte>): (r: Cache)
    ensures command in r && r[command] == parameter
    ensures r.Keys == cache.Keys + {command}
    ensures forall k :: k in cache && k != command ==> r[k] == cache[k]
  {
    cache[command := parameter]
  }

  /** Last write wins: a second observation of a command replaces the
      first, whatever was observed for other commands in between. */
  lemma LastWriteWins(cache: Cache, command: seq<Byte>, first: seq<Byte>, other: seq<Byte>, x: seq<Byte>, second: seq<Byte>)
    requires other != command
    ensures Observe(Observe(Observe(cache, command, first), other, x), command, second)
         == Observe(Observe(cache, other, x), command, second)
  {
  }

  /** Client.State: a copy of the cache, built entry by entry. */
  method State(d: Device) returns (snapshot: Cache)
    ensures snapshot == d.state
  {
    snapshot := map[];
    var keys := d.state.Keys;
    while keys != {}
      invariant keys <= d.state.Keys
      invariant snapshot.Keys == d.state.Keys - keys
      invariant forall k :: k in snapshot ==> snapshot[k] == d.state[k]
      decreases keys
    {
      var k :| k in keys;
      snapshot := snapshot[k := d.state[k]];
      keys := keys - {k};
    }
  }

  // ---------------------------------------------------------------------
  // Dispatch loop arms
  // ---------------------------------------------------------------------

  /** NewClient followed by the add arm: a fresh client becomes live. */
  function AddClient(d: Device): (r: (Device, ClientId))
    requires Clients(d)
    ensures Clients(r.0)
    ensures r.1 !in d.delivered
    ensures r.0.live == d.live + {r.1} && r.0.closed == d.closed
    ensures r.0.delivered == d.delivered[r.1 := []]
    ensures r.0.state == d.state && r.0.txbuf == d.txbuf && r.0.writes == d.writes
  {
    var c := d.nextId;
    (d.(live := d.live + {c}, delivered := d.delivered[c := []], nextId := c + 1), c)
  }

  /** Closing a channel: Go panics on a channel that is already closed,
      hence the precondition. */
  function CloseReceive(d: Device, c: ClientId): (r: Device)
    requires c !in d.closed
    ensures r.closed == d.closed + {c} && r.live == d.live
    ensures r.delivered == d.delivered && r.state == d.state && r.txbuf == d.txbuf && r.writes == d.writes && r.nextId == d.nextId
  {
    d.(closed := d.closed + {c})
  }

  /** removeClient: a client that is not live is left alone (no delete, no
      second close); a live one is deleted and its channel closed.
      `explicit` (Close versus eviction) only changes what is logged. */
  function RemoveClient(d: Device, c: ClientId, explicit: bool): (r: Device)
    requires Clients(d)
    ensures Clients(r)
    ensures c !in r.live
    ensures c !in d.live ==> r == d
    ensures c in d.live ==> c !in d.closed && r.live == d.live - {c} && r.closed == d.closed + {c}
    ensures r.delivered == d.delivered && r.state == d.state && r.txbuf == d.txbuf && r.writes == d.writes
  {
    if c !in d.live then d
    else CloseReceive(d.(live := d.live - {c}), c)
  }

  /** The send arm: init into the transmit buffer, then one write. An
      over-long message is answered with init's error and nothing is
      written; otherwise exactly one frame goes out and the write's result
      is the answer. */
  function Send(d: Device, m: Message, written: Outcome<TransportError>): (r: (Device, Outcome<SendError>))
    requires Inv(d)
    ensures Inv(r.0)
    ensures |m.String()| > MaxMessageSize ==> r.0 == d && r.1 == Fail(InitFailed(MessageTooLong(m.String())))
    ensures |m.String()| <= MaxMessageSize ==>
              && r.0.writes == d.writes + [r.0.txbuf]
              && Encodes(r.0.txbuf, m.String())
              && r.1 == (if written.Pass? then Pass else Fail(WriteFailed(written.error)))
    ensures r.0.live == d.live && r.0.closed == d.closed && r.0.delivered == d.delivered && r.0.state == d.state
  {
    match Init(d.txbuf, m.String())
    case Failure(e) => (d, Fail(InitFailed(e)))
    case Success(frame) =>
      InitThenCheck(d.txbuf, m.String());
      var d' := d.(txbuf := frame, writes := d.writes + [frame]);
      match written
      case Fail(e) => (d', Fail(WriteFailed(e)))
      case Pass => (d', Pass)
  }

  /** Reusing the transmit buffer is safe: the frame a send writes depends
      only on its message, never on the messages sent before. */
  lemma SendFrameIsFresh(d: Device, m: Message, written: Outcome<TransportError>)
    requires Inv(d) && |m.String()| <= MaxMessageSize
    ensures Send(d, m, written).0.writes == d.writes + [Init(NewPacket(), m.String()).value]
  {
    InitIgnoresPreviousContents(d.txbuf, NewPacket(), m.String());
  }

  /** The broadcast arm after it has offered the message to the clients
      in `offered`: those that were ready have been handed it once, the
      others removed and closed; the rest are untouched so far. */
  function BroadcastTo(d: Device, m: Message, ready: set<ClientId>, offered: set<ClientId>): (r: Device)
    requires Clients(d) && offered <= d.live
    ensures Clients(r)
    ensures r.live == d.live - (offered - ready)
    ensures r.closed == d.closed + (offered - ready)
    ensures r.delivered.Keys == d.delivered.Keys
    ensures forall c :: c in d.delivered ==>
              r.delivered[c] == (if c in offered && c in ready then d.delivered[c] + [m] else d.delivered[c])
    ensures r.state == d.state && r.txbuf == d.txbuf && r.writes == d.writes && r.nextId == d.nextId
  {
    d.(live := d.live - (offered - ready),
       closed := d.closed + (offered - ready),
       delivered := map c | c in d.delivered :: if c in offered && c in ready then d.delivered[c] + [m] else d.delivered[c])
  }

  /** The broadcast arm: every client live beforehand is handed the
      message once if it is ready, and otherwise removed and closed; no
      client is added, and the clients left live are the ready ones. */
  function Broadcast(d: Device, m: Message, ready: set<ClientId>): (r: Device)
    requires Clients(d)
    ensures Clients(r)
    ensures r.live == d.live * ready
    ensures r.closed == d.closed + (d.live - ready)
    ensures forall c :: c in d.live ==>
              if c in ready then r.delivered[c] == d.delivered[c] + [m]
              else c in r.closed && r.delivered[c] == d.delivered[c]
    ensures forall c :: c in d.closed ==> r.delivered[c] == d.delivered[c]
    ensures r.state == d.state && r.txbuf == d.txbuf && r.writes == d.writes && r.nextId == d.nextId
  {
    BroadcastTo(d, m, ready, d.live)
  }

  /** The inner `select` for one client: hand over the message if the
      client is ready, otherwise evict it. */
  function Offer(d: Device, m: Message, ready: set<ClientId>, c: ClientId): (r: Device)
    requires Clients(d) && c in d.live
    ensures Clients(r)
  {
    if c in ready then d.(delivered := d.delivered[c := d.delivered[c] + [m]])
    else RemoveClient(d, c, false)
  }

  /** Offering to one more client extends the partial broadcast by it. */
  lemma OfferExtendsBroadcast(d: Device, m: Message, ready: set<ClientId>, offered: set<ClientId>, c: ClientId)
    requires Clients(d) && offered <= d.live && c in d.live - offered
    ensures Offer(BroadcastTo(d, m, ready, offered), m, ready, c) == BroadcastTo(d, m, ready, offered + {c})
  {
    var before := BroadcastTo(d, m, ready, offered);
    var after := BroadcastTo(d, m, ready, offered + {c});
    if c in ready {
      var r := before.(delivered := before.delivered[c := before.delivered[c] + [m]]);
      assert r.delivered == after.delivered;
      assert r == after;
    } else {
      var r := before.(live := before.live - {c}, closed := before.closed + {c});
      assert r.delivered == after.delivered;
      assert r == after;
    }
  }

  /** Before any client has been offered the message, nothing changed. */
  lemma NothingOfferedYet(d: Device, m: Message, ready: set<ClientId>)
    requires Clients(d)
    ensures BroadcastTo(d, m, ready, {}) == d
  {
    var r := BroadcastTo(d, m, ready, {});
    assert r.delivered == d.delivered;
  }

  /** The broadcast arm as the source runs it: one client at a time, in
      whatever order the map yields them, a non-blocking send or an
      eviction through removeClient. The order does not matter. */
  method BroadcastLoop(d: Device, m: Message, ready: set<ClientId>) returns (r: Device)
    requires Clients(d)
    ensures r == Broadcast(d, m, ready)
  {
    r := d;
    var offered: set<ClientId> := {};
    NothingOfferedYet(d, m, ready);
    while d.live - offered != {}
      invariant offered <= d.live
      invariant r == BroadcastTo(d, m, ready, offered)
      decreases d.live - offered
    {
      var c :| c in d.live - offered;
      OfferExtendsBroadcast(d, m, ready, offered, c);
      r := Offer(r, m, ready, c);
      offered := offered + {c};
    }
  }

  /** One pass of the receive loop over a frame read from the connection:
      a frame failing the inbound check, or too short to hold a command,
      is dropped; otherwise the cache records it and the message is
      forwarded for broadcast. */
  function ReceiveFrame(d: Device, p: Packet): (r: (Device, Option<Message>))
    requires Clients(d)
    ensures Clients(r.0)
    ensures !Valid(p, EndOfPacketRx) ==> r == (d, None)
    ensures Valid(p, EndOfPacketRx) && p[DataSizeIndex] < MinDataSize ==> r == (d, None)
    ensures r.1.Some? ==> Valid(p, EndOfPacketRx) && Decode(p) == Success(r.1.value)
    ensures r.1.Some? ==> r.0 == d.(state := Observe(d.state, r.1.value.command, r.1.value.parameter))
    ensures Valid(p, EndOfPacketRx) && MinDataSize <= p[DataSizeIndex] ==> r.1.Some?
  {
    match Check(p, EndOfPacketRx)
    case Fail(_) => (d, None)
    case Pass =>
      match Decode(p)
      case Failure(_) => (d, None)
      case Success(m) => (d.(state := Observe(d.state, m.command, m.parameter)), Some(m))
  }

  /** Client.Receive, for a client that has already been handed `taken`
      messages: the next one if there is one, else the closed-channel
      error if its channel is closed, else it keeps waiting. */
  function Receive(d: Device, c: ClientId, taken: nat): (r: Receipt)
    requires Clients(d) && c in d.delivered && taken <= |d.delivered[c]|
    ensures r == ChannelClosed <==> c in d.closed && taken == |d.delivered[c]|
    ensures r.Received? <==> taken < |d.delivered[c]|
    ensures r.Received? ==> r.message == d.delivered[c][taken]
    ensures r == Blocked <==> c in d.live && taken == |d.delivered[c]|
  {
    if taken < |d.delivered[c]| then Received(d.delivered[c][taken])
    else if c !in d.live then ChannelClosed
    else Blocked
  }

  // ---------------------------------------------------------------------
  // The session as a sequence of events
  // ---------------------------------------------------------------------

  datatype Event =
    | NewClient
    | CloseClient(client: ClientId)
    | SendMessage(message: Message, written: Outcome<TransportError>)
    | FrameRead(packet: Packet, ready: set<ClientId>)

  /** The frames one event writes: one for a send whose message init
      accepts, none otherwise. */
  function FramesOf(e: Event): seq<Packet> {
    match e
    case SendMessage(m, _) =>
      if |m.String()| <= MaxMessageSize then [Init(NewPacket(), m.String()).value] else []
    case _ => []
  }

  /** The frames a run of events writes, in submission order. */
  function SentFrames(events: seq<Event>): seq<Packet>
    decreases |events|
  {
    if |events| == 0 then []
    else SentFrames(events[..|events| - 1]) + FramesOf(events[|events| - 1])
  }

  /** Every frame a run of events writes is a well-formed outbound frame. */
  lemma {:induction false} SentFramesAreWellFormed(events: seq<Event>)
    ensures forall i :: 0 <= i < |SentFrames(events)| ==> Check(SentFrames(events)[i], EndOfPacketTx) == Pass
    decreases |events|
  {
    if |events| > 0 {
      var last := events[|events| - 1];
      SentFramesAreWellFormed(events[..|events| - 1]);
      if last.SendMessage? && |last.message.String()| <= MaxMessageSize {
        InitThenCheck(NewPacket(), last.message.String());
      }
    }
  }

  /** One event: a dispatch-loop arm, or a receive-loop pass whose message
      (if any) is then broadcast. No event undoes another: closed clients
      stay closed and are handed nothing more, delivery histories only
      grow, only clients created by the event become live, and the event
      appends exactly its own frames to the written trace. */
  method Step(d: Device, e: Event) returns (r: Device)
    requires Inv(d)
    ensures Inv(r)
    ensures r.writes == d.writes + FramesOf(e)
    ensures d.closed <= r.closed && r.live <= d.live + (r.delivered.Keys - d.delivered.Keys)
    ensures d.delivered.Keys <= r.delivered.Keys
    ensures forall c :: c in d.delivered ==> d.delivered[c] <= r.delivered[c]
    ensures forall c :: c in d.closed ==> r.delivered[c] == d.delivered[c]
  {
    match e
    case NewClient =>
      r := AddClient(d).0;
    case CloseClient(c) =>
      r := RemoveClient(d, c, true);
    case SendMessage(m, written) =>
      if |m.String()| <= MaxMessageSize {
        SendFrameIsFresh(d, m, written);
      }
      r := Send(d, m, written).0;
    case FrameRead(p, ready) =>
      var (d', forwarded) := ReceiveFrame(d, p);
      r := if forwarded.Some? then Broadcast(d', forwarded.value, ready) else d';
  }

  /** The dispatch loop over a run of events. Writes are serialized: the
      run writes exactly the frames of its accepted sends, in order. Once
      closed, a client stays closed and is handed nothing more. */
  method Run(d: Device, events: seq<Event>) returns (r: Device)
    requires Inv(d)
    ensures Inv(r)
    ensures r.writes == d.writes + SentFrames(events)
    ensures forall c :: c in d.closed ==> c in r.closed && c !in r.live && r.delivered[c] == d.delivered[c]
  {
    r := d;
    var i := 0;
    while i < |events|
      invariant 0 <= i <= |events|
      invariant Inv(r)
      invariant r.writes == d.writes + SentFrames(events[..i])
      invariant forall c :: c in d.closed ==> c in r.closed && r.delivered[c] == d.delivered[c]
    {
      r := Step(r, events[i]);
      assert events[..i + 1][..i] == events[..i];
      i := i + 1;
    }
    assert events[..i] == events;
  }

  // ---------------------------------------------------------------------
  // Client removal
  // ---------------------------------------------------------------------

  /** Removing twice is removing once: an explicit Close after an eviction
      (or a second Close) changes nothing. */
  lemma RemoveIsIdempotent(d: Device, c: ClientId, first: bool, second: bool)
    requires Clients(d)
    ensures RemoveClient(RemoveClient(d, c, first), c, second) == RemoveClient(d, c, first)
  {
  }

  /** Close and eviction reach the same session. */
  lemma ExplicitAndImplicitRemovalAgree(d: Device, c: ClientId)
    requires Clients(d)
    ensures RemoveClient(d, c, true) == RemoveClient(d, c, false)
  {
  }

  /** A live client that is not ready when a message is broadcast is
      evicted: its Receive then reports the closed channel, a later Close
      is a no-op, and every ready client still gets the message. */
  lemma SlowClientIsEvicted(d: Device, m: Message, ready: set<ClientId>, c: ClientId)
    requires Clients(d) && c in d.live && c !in ready
    ensures Receive(Broadcast(d, m, ready), c, |d.delivered[c]|) == ChannelClosed
    ensures RemoveClient(Broadcast(d, m, ready), c, true) == Broadcast(d, m, ready)
    ensures forall o :: o in d.live && o in ready ==> Receive(Broadcast(d, m, ready), o, |d.delivered[o]|) == Received(m)
  {
  }
}
