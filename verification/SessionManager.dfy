/** mesh/session_manager.py's SessionManager: one dictionary per field of a peer, updated packet by packet. */
module SessionManagers {
  import opened Bytes
  import opened Packets
  import opened Announcements
  import opened PrivatePayloads
  import opened NoiseTransport
  import opened Sessions

  type PeerId = bytes

  function Get<K, V>(m: map<K, V>, key: K): Option<V> {
    if key in m then Some(m[key]) else None
  }

  function GetOr<K, V>(m: map<K, V>, key: K, default: V): V {
    if key in m then m[key] else default
  }

  const NO_CLOCK: Clock := n => Reading(0.0, 0.0)

  class SessionManager {
    const readers: Readers

    var sessions: map<PeerId, Live>
    var msg1s: map<PeerId, bytes>
    var msg2s: map<PeerId, Msg2>
    var queues: map<PeerId, seq<Queued>>
    var fails: map<PeerId, nat>
    var nicks: map<PeerId, bytes>
    var noisePubs: map<PeerId, bytes>
    var lastSeen: map<PeerId, real>
    var announcedAt: map<PeerId, real>
    var created: map<PeerId, nat>

    /** Everything kept about one peer. */
    function View(id: PeerId): Peer
      reads this
    {
      Peer(Get(sessions, id), Get(msg1s, id), Get(msg2s, id), GetOr(queues, id, []), GetOr(fails, id, 0),
           Get(nicks, id), Get(noisePubs, id), Get(lastSeen, id), Get(announcedAt, id), GetOr(created, id, 0))
    }

    constructor (readers: Readers)
      ensures this.readers == readers
      ensures forall id :: View(id) == STRANGER
    {
      this.readers := readers;
      sessions, msg1s, msg2s, queues, fails := map[], map[], map[], map[], map[];
      nicks, noisePubs, lastSeen, announcedAt, created := map[], map[], map[], map[], map[];
    }

    // ----- Building blocks -----

    method CreateResponder(id: PeerId)
      modifies this
      ensures View(id) == Respond(old(View(id)))
      ensures forall q :: q != id ==> View(q) == old(View(q))
    {
      var number := GetOr(created, id, 0);
      sessions := sessions[id := Live(number, AwaitMsg1)];
      created := created[id := number + 1];
    }

    method PopCaches(id: PeerId)
      modifies this
      ensures View(id) == DropCaches(old(View(id)))
      ensures forall q :: q != id ==> View(q) == old(View(q))
    {
      msg2s := msg2s - {id};
      msg1s := msg1s - {id};
    }

    method DeleteSession(id: PeerId)
      modifies this
      ensures View(id) == DropCaches(old(View(id)).(session := None))
      ensures forall q :: q != id ==> View(q) == old(View(q))
    {
      sessions := sessions - {id};
      PopCaches(id);
    }

    method EchoAnnounce(id: PeerId, now: real) returns (out: seq<Out>)
      modifies this
      ensures Step(View(id), out, false) == Echo(old(View(id)), now)
      ensures forall q :: q != id ==> View(q) == old(View(q))
    {
      out := [];
      if now - GetOr(announcedAt, id, 0.0) >= ANNOUNCE_COOLDOWN {
        out := [SendAnnounce];
        announcedAt := announcedAt[id := now];
      }
    }

    method LeaveAndAnnounce(id: PeerId, now: real) returns (out: seq<Out>)
      modifies this
      ensures Step(View(id), out, false) == ForceHandshake(old(View(id)), now)
      ensures forall q :: q != id ==> View(q) == old(View(q))
    {
      out := [SendLeave];
      CreateResponder(id);
      announcedAt := announcedAt - {id};
      out := out + [SendAnnounce];
      announcedAt := announcedAt[id := now];
    }

    // ----- Pending sends -----

    method FilterFresh(queue: seq<Queued>, now: real) returns (young: seq<Queued>)
      ensures young == FreshOnly(queue, now)
    {
      young := [];
      for i := 0 to |queue|
        invariant young == FreshOnly(queue[..i], now)
      {
        assert queue[..i + 1][..i] == queue[..i];
        if now - queue[i].time < PENDING_SEND_TTL {
          young := young + [queue[i]];
        }
      }
      assert queue[..|queue|] == queue;
    }

    method DrainPendingSends(id: PeerId, transport: Session, now: real, clock: Clock)
      returns (out: seq<Out>, raised: bool)
      requires id in sessions
      modifies this
      ensures Step(View(id), out, raised) == Drain(old(View(id)), transport, now, clock)
      ensures forall q :: q != id ==> View(q) == old(View(q))
    {
      var queued := GetOr(queues, id, []);
      queues := queues - {id};
      queued := FilterFresh(queued, now);
      var t;
      t, out, raised := SendQueued(transport, queued, clock);
      sessions := sessions[id := sessions[id].(noise := Ready(t))];
    }

    method SendQueued(transport: Session, queued: seq<Queued>, clock: Clock)
      returns (t: Session, out: seq<Out>, raised: bool)
      ensures Drained(t, out, raised) == DrainQueue(transport, queued, clock)
    {
      t, out, raised := transport, [], false;
      for i := 0 to |queued|
        invariant Drained(t, out, raised) == DrainQueue(transport, queued[..i], clock) && !raised
      {
        assert queued[..i + 1][..i] == queued[..i];
        var payload := EncodeText(queued[i].content, queued[i].id);
        if payload.None? {
          RaisedStays(transport, queued, i + 1, clock);
          raised := true;
          return;
        }
        var (after, wire) := Encrypt(t, payload.value, clock(i).now, clock(i).restart);
        t := after;
        if wire.Some? {
          out := out + [SendSealed(wire.value), Delivered(queued[i].id)];
        }
      }
      assert queued[..|queued|] == queued;
    }

    // ----- Packets -----

    method HandleAnnounce(id: PeerId, ann: Option<Announcement>, now: real) returns (out: seq<Out>)
      modifies this
      ensures Step(View(id), out, false) == OnAnnounce(old(View(id)), ann, now)
      ensures forall q :: q != id ==> View(q) == old(View(q))
    {
      if ann.Some? {
        nicks := nicks[id := ann.value.nickname];
        NoteKey(id, ann.value.noisePub);
      }
      out := EchoAnnounce(id, now);
    }

    /** A changed Noise key means a restarted peer: its session is stale. */
    method NoteKey(id: PeerId, noisePub: bytes)
      modifies this
      ensures
        var p := old(View(id));
        var changed := p.noisePub.Some? && p.noisePub.value != noisePub;
        View(id) == (if changed then DropCaches(p.(session := None)) else p).(noisePub := Some(noisePub))
      ensures forall q :: q != id ==> View(q) == old(View(q))
    {
      if id in noisePubs && noisePubs[id] != noisePub {
        DeleteSession(id);
      }
      noisePubs := noisePubs[id := noisePub];
    }

    method ReadHandshakeMessage(id: PeerId, payload: bytes, c: Chance, now: real, clock: Clock)
      returns (out: seq<Out>, raised: bool)
      requires id in sessions
      modifies this
      ensures Step(View(id), out, raised) == ReadHandshake(old(View(id)), payload, c, now, clock)
      ensures forall q :: q != id ==> View(q) == old(View(q))
    {
      out, raised := [], false;
      var session := sessions[id];
      if !c.readable || session.noise.Ready? {
        DeleteSession(id);
        return;
      }
      if |payload| == MSG1_SIZE {
        msg1s := msg1s[id := payload];
      }
      if session.noise.SentMsg2? {
        PopCaches(id);
        out, raised := DrainPendingSends(id, c.Transport(), now, clock);
        return;
      }
      if !c.writable {
        DeleteSession(id);
        return;
      }
      var msg2 := Msg2(session.number, payload);
      sessions := sessions[id := Live(session.number, SentMsg2(payload))];
      msg2s := msg2s[id := msg2];
      out := [SendMsg2(msg2)];
    }

    method HandleHandshake(id: PeerId, payload: bytes, c: Chance, now: real, clock: Clock)
      returns (out: seq<Out>, raised: bool)
      modifies this
      ensures Step(View(id), out, raised) == OnHandshake(old(View(id)), payload, c, now, clock)
      ensures forall q :: q != id ==> View(q) == old(View(q))
    {
      if id !in sessions && |payload| != MSG1_SIZE {
        return [], false;
      }
      ResetForMsg1(id, payload);
      if !sessions[id].noise.Ready? && |payload| == MSG1_SIZE && Get(msg1s, id) == Some(payload) && id in msg2s {
        return [SendMsg2(msg2s[id])], false;
      }
      RestartForMsg1(id, payload);
      out, raised := ReadHandshakeMessage(id, payload, c, now, clock);
    }

    /** A msg1 that is no retry takes the place of one that was answered before. */
    method RestartForMsg1(id: PeerId, payload: bytes)
      requires id in sessions
      modifies this
      ensures View(id) == Restarted(old(View(id)), payload)
      ensures forall q :: q != id ==> View(q) == old(View(q))
    {
      if !sessions[id].noise.Ready? && |payload| == MSG1_SIZE && (id in msg1s || id in msg2s) {
        CreateResponder(id);
        PopCaches(id);
      }
    }

    /** A session for a stranger's msg1, and a new one for a msg1 on an established session. */
    method ResetForMsg1(id: PeerId, payload: bytes)
      requires id in sessions || IsMsg1(payload)
      modifies this
      ensures View(id) == ReaderFor(old(View(id)), payload)
      ensures forall q :: q != id ==> View(q) == old(View(q))
    {
      if id !in sessions {
        CreateResponder(id);
      }
      if sessions[id].noise.Ready? && |payload| == MSG1_SIZE {
        CreateResponder(id);
        PopCaches(id);
      }
    }

    method SendReceiptsFor(id: PeerId, msgId: bytes, clock: Clock) returns (out: seq<Out>)
      requires View(id).Established()
      modifies this
      ensures Step(View(id), out, false)
           == SendReceipts(old(View(id)), old(View(id)).session.value.noise.transport, msgId, clock)
      ensures forall q :: q != id ==> View(q) == old(View(q))
    {
      out := [];
      var (t1, first) :=
        Encrypt(sessions[id].noise.transport, EncodeReceipt(DELIVERY_RECEIPT, msgId), clock(0).now, clock(0).restart);
      if first.Some? {
        out := out + [SendSealed(first.value)];
      }
      var (t2, second) := Encrypt(t1, EncodeReceipt(READ_RECEIPT, msgId), clock(1).now, clock(1).restart);
      if second.Some? {
        out := out + [SendSealed(second.value)];
      }
      sessions := sessions[id := sessions[id].(noise := Ready(t2))];
    }

    method HandleEncrypted(id: PeerId, wire: Message, now: real, clock: Clock) returns (out: seq<Out>)
      modifies this
      ensures Step(View(id), out, false) == OnEncrypted(old(View(id)), readers.guess, wire, now, clock)
      ensures forall q :: q != id ==> View(q) == old(View(q))
    {
      out := [];
      if id !in sessions || !sessions[id].noise.Ready? {
        out := LeaveAndAnnounce(id, now);
        return;
      }
      var plaintext := Decrypt(sessions[id].noise.transport, wire);
      if plaintext.None? {
        var n := GetOr(fails, id, 0) + 1;
        fails := fails[id := n];
        if n >= DECRYPT_FAILURES {
          fails := fails - {id};
          out := LeaveAndAnnounce(id, now);
        }
        return;
      }
      fails := fails - {id};
      match ParseIncoming(readers.guess, plaintext.value)
      case Unknown =>
      case Receipt(_) =>
      case File(msgId, _) => out := SendReceiptsFor(id, msgId, clock);
      case Text(msgId, _) => out := SendReceiptsFor(id, msgId, clock);
    }

    method HandleLeave(id: PeerId)
      modifies this
      ensures View(id) == OnLeave(old(View(id)))
      ensures forall q :: q != id ==> View(q) == old(View(q))
    {
      ForgetPeer(id);
      DeleteSession(id);
    }

    method ForgetPeer(id: PeerId)
      modifies this
      ensures View(id) == old(View(id)).(nick := None, noisePub := None, announcedAt := None, queue := [])
      ensures forall q :: q != id ==> View(q) == old(View(q))
    {
      nicks := nicks - {id};
      noisePubs := noisePubs - {id};
      announcedAt := announcedAt - {id};
      queues := queues - {id};
    }

    /** handle_packet: the type byte picks the handler. */
    method HandlePacket(p: Packet, chance: Chance, now: real, clock: Clock) returns (out: seq<Out>, raised: bool)
      modifies this
      ensures Step(View(p.sender), out, raised)
           == React(readers.guess, old(View(p.sender)), Event(InputOf(readers, p, chance), now, clock))
      ensures forall q :: q != p.sender ==> View(q) == old(View(q))
    {
      out, raised := [], false;
      lastSeen := lastSeen[p.sender := now];
      if p.packetType == ANNOUNCE {
        var ann := ReadAnnounce(readers.lossy, p.payload);
        out := HandleAnnounce(p.sender, ann, now);
      } else if p.packetType == NOISE_HANDSHAKE {
        out, raised := HandleHandshake(p.sender, p.payload, chance, now, clock);
      } else if p.packetType == NOISE_ENCRYPTED {
        out := HandleEncrypted(p.sender, readers.seal(p.payload), now, clock);
      } else if p.packetType == LEAVE {
        HandleLeave(p.sender);
      } else if p.packetType == REQUEST_SYNC {
        out := EchoAnnounce(p.sender, now);
      }
    }

    // ----- Timeouts and commands -----

    method FindTimedOut(order: seq<PeerId>, now: real, timeout: real) returns (lost: seq<PeerId>)
      ensures forall id :: id in lost <==> id in order && TimedOut(View(id), now, timeout)
    {
      lost := [];
      for i := 0 to |order|
        invariant forall id :: id in lost <==> id in order[..i] && TimedOut(View(id), now, timeout)
      {
        var id := order[i];
        if id in lastSeen && now - lastSeen[id] > timeout && id in nicks {
          lost := lost + [id];
        }
      }
      assert order[..|order|] == order;
    }

    method RemovePeer(id: PeerId)
      modifies this
      ensures View(id) == OnTimeout(old(View(id)))
      ensures forall q :: q != id ==> View(q) == old(View(q))
    {
      HandleLeave(id);
      lastSeen := lastSeen - {id};
    }

    method RemovePeers(lost: seq<PeerId>)
      modifies this
      ensures forall id :: View(id) == if id in lost then OnTimeout(old(View(id))) else old(View(id))
    {
      for i := 0 to |lost|
        invariant forall id :: View(id) == if id in lost[..i] then OnTimeout(old(View(id))) else old(View(id))
      {
        RemovePeer(lost[i]);
        assert lost[..i + 1] == lost[..i] + [lost[i]];
      }
      assert lost[..|lost|] == lost;
    }

    /** One round of the timeout loop; `order` lists the peers that were ever seen. */
    method SweepPeers(order: seq<PeerId>, now: real, timeout: real) returns (lost: seq<PeerId>)
      requires forall id :: id in order <==> id in lastSeen
      modifies this
      ensures forall id :: View(id) == React(readers.guess, old(View(id)), Event(Sweep(timeout), now, NO_CLOCK)).peer
      ensures forall id :: id in lost <==> TimedOut(old(View(id)), now, timeout)
    {
      lost := FindTimedOut(order, now, timeout);
      RemovePeers(lost);
    }

    method SealAndSend(id: PeerId, payload: Option<bytes>, clock: Clock) returns (out: seq<Out>, raised: bool)
      requires View(id).Established()
      modifies this
      ensures Step(View(id), out, raised) == SendPayload(old(View(id)), payload, clock)
      ensures forall q :: q != id ==> View(q) == old(View(q))
    {
      out, raised := [], payload.None?;
      if payload.Some? {
        var (t, wire) := Encrypt(sessions[id].noise.transport, payload.value, clock(0).now, clock(0).restart);
        sessions := sessions[id := sessions[id].(noise := Ready(t))];
        if wire.Some? {
          out := [SendSealed(wire.value)];
        }
      }
    }

    /** The send command. */
    method SendMessage(id: PeerId, content: bytes, msgId: bytes, reachable: bool, now: real, clock: Clock)
      returns (out: seq<Out>, raised: bool)
      modifies this
      ensures Step(View(id), out, raised)
           == React(readers.guess, old(View(id)), Event(SendText(content, msgId, reachable), now, clock))
      ensures forall q :: q != id ==> View(q) == old(View(q))
    {
      out, raised := [], false;
      if content == [] {
        return;
      }
      if id !in sessions || !sessions[id].noise.Ready? || !reachable {
        queues := queues[id := GetOr(queues, id, []) + [Queued(content, msgId, now)]];
        announcedAt := announcedAt - {id};
        out := [SendAnnounce];
        announcedAt := announcedAt[id := now];
        return;
      }
      out, raised := SealAndSend(id, EncodeText(content, msgId), clock);
    }

    /** The send_file command. */
    method SendFileTo(id: PeerId, data: bytes, msgId: bytes, now: real, clock: Clock)
      returns (out: seq<Out>, raised: bool)
      modifies this
      ensures Step(View(id), out, raised)
           == React(readers.guess, old(View(id)), Event(SendFile(data, msgId), now, clock))
      ensures forall q :: q != id ==> View(q) == old(View(q))
    {
      if id !in sessions || !sessions[id].noise.Ready? {
        return [], false;
      }
      out, raised := SealAndSend(id, EncodeFile(data, msgId), clock);
    }

    /** cancel_pending_sends. */
    method CancelPendingSends(id: PeerId) returns (cancelled: nat)
      modifies this
      ensures cancelled == |old(View(id)).queue|
      ensures View(id) == old(View(id)).(queue := [])
      ensures forall q :: q != id ==> View(q) == old(View(q))
    {
      cancelled := |GetOr(queues, id, [])|;
      queues := queues - {id};
    }

    method ClearAnnounceCooldown()
      modifies this
      ensures forall id :: View(id) == old(View(id)).(announcedAt := None)
    {
      announcedAt := map[];
    }
  }

  /** Once an exception has left the drain, nothing more is sent. */
  lemma {:induction false} RaisedStays(t: Session, queue: seq<Queued>, i: nat, clock: Clock)
    requires i <= |queue| && DrainQueue(t, queue[..i], clock).raised
    ensures DrainQueue(t, queue, clock) == DrainQueue(t, queue[..i], clock)
    decreases |queue|
  {
    if i < |queue| {
      var n := |queue| - 1;
      assert queue[..n][..i] == queue[..i];
      RaisedStays(t, queue[..n], i, clock);
    } else {
      assert queue[..i] == queue;
    }
  }
}
