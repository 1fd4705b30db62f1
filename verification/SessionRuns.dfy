/** Whole runs of the session manager: whatever is interleaved, each peer's dictionaries are those of its own run. */
module SessionRuns {
  import opened Bytes
  import opened Seqs
  import opened Packets
  import opened PrivatePayloads
  import opened Sessions
  import opened SessionManagers
  import opened Handshakes

  /** Everything that reaches the manager: packets, commands, and rounds of the timeout loop. */
  datatype Call =
    | PacketCall(p: Packet, chance: Chance, now: real, clock: Clock)
    | SendCall(to: PeerId, content: bytes, msgId: bytes, reachable: bool, now: real, clock: Clock)
    | FileCall(to: PeerId, data: bytes, msgId: bytes, now: real, clock: Clock)
    | CancelCall(to: PeerId)
    | SweepCall(now: real, timeout: real)
    | ClearCall

  /** What a call is to one peer. */
  function EventsAt(readers: Readers, id: PeerId, c: Call): (es: seq<Event>)
    ensures |es| <= 1
  {
    match c
    case PacketCall(p, chance, now, clock) =>
      if id == p.sender then [Event(InputOf(readers, p, chance), now, clock)] else []
    case SendCall(to, content, msgId, reachable, now, clock) =>
      if id == to then [Event(SendText(content, msgId, reachable), now, clock)] else []
    case FileCall(to, data, msgId, now, clock) =>
      if id == to then [Event(SendFile(data, msgId), now, clock)] else []
    case CancelCall(to) => if id == to then [Event(Cancel, 0.0, NO_CLOCK)] else []
    case SweepCall(now, timeout) => [Event(Sweep(timeout), now, NO_CLOCK)]
    case ClearCall => [Event(ClearCooldown, 0.0, NO_CLOCK)]
  }

  /** One peer's part of a sequence of calls. */
  function EventsOf(readers: Readers, id: PeerId, calls: seq<Call>): seq<Event> {
    if calls == [] then []
    else EventsOf(readers, id, calls[..|calls| - 1]) + EventsAt(readers, id, calls[|calls| - 1])
  }

  /** What one call sent, and for whom. */
  datatype Batch = Batch(to: PeerId, out: seq<Out>)

  function SentTo(id: PeerId, sent: seq<Batch>): seq<Out> {
    if sent == [] then []
    else
      var last := sent[|sent| - 1];
      SentTo(id, sent[..|sent| - 1]) + if last.to == id then last.out else []
  }

  lemma {:induction false} RunOfOne(guess: bytes -> Parsed, start: Peer, e: Event)
    ensures RunOf(guess, start, [e]) == Run(React(guess, start, e).peer, React(guess, start, e).out)
    ensures RunOf(guess, start, []) == Run(start, [])
  {
    assert [e][..0] == [];
    assert [] + React(guess, start, e).out == React(guess, start, e).out;
  }

  lemma {:induction false} RunOfMore(guess: bytes -> Parsed, start: Peer, es: seq<Event>, more: seq<Event>)
    requires |more| <= 1
    ensures
      var before := RunOf(guess, start, es);
      var step := RunOf(guess, before.peer, more);
      RunOf(guess, start, es + more) == Run(step.peer, before.out + step.out)
  {
    var before := RunOf(guess, start, es);
    if more == [] {
      assert es + more == es && before.out + [] == before.out;
    } else {
      assert more == [more[0]] && (es + more)[..|es|] == es;
      RunOfOne(guess, before.peer, more[0]);
    }
  }

  /** Does a step of one peer's run lead from `before` to `after` and `out`? */
  predicate Moves(guess: bytes -> Parsed, before: Peer, es: seq<Event>, after: Peer, out: seq<Out>) {
    RunOf(guess, before, es) == Run(after, out)
  }

  lemma MovesByOne(guess: bytes -> Parsed, before: Peer, e: Event, after: Peer, out: seq<Out>, raised: bool)
    requires Step(after, out, raised) == React(guess, before, e)
    ensures Moves(guess, before, [e], after, out)
  {
    RunOfOne(guess, before, e);
  }

  /** One call moves every peer by its part of it. */
  method ServeOne(manager: SessionManager, c: Call) returns (batch: Batch)
    modifies manager
    ensures forall id ::
              Moves(manager.readers.guess, old(manager.View(id)), EventsAt(manager.readers, id, c), manager.View(id),
                    if id == batch.to then batch.out else [])
  {
    var out, raised := [], false;
    ghost var guess := manager.readers.guess;
    match c {
      case PacketCall(p, chance, now, clock) =>
        out, raised := manager.HandlePacket(p, chance, now, clock);
        batch := Batch(p.sender, out);
        MovesByOne(guess, old(manager.View(p.sender)), Event(InputOf(manager.readers, p, chance), now, clock),
                   manager.View(p.sender), out, raised);
      case SendCall(to, content, msgId, reachable, now, clock) =>
        out, raised := manager.SendMessage(to, content, msgId, reachable, now, clock);
        batch := Batch(to, out);
        MovesByOne(guess, old(manager.View(to)), Event(SendText(content, msgId, reachable), now, clock),
                   manager.View(to), out, raised);
      case FileCall(to, data, msgId, now, clock) =>
        out, raised := manager.SendFileTo(to, data, msgId, now, clock);
        batch := Batch(to, out);
        MovesByOne(guess, old(manager.View(to)), Event(SendFile(data, msgId), now, clock),
                   manager.View(to), out, raised);
      case CancelCall(to) =>
        var _ := manager.CancelPendingSends(to);
        batch := Batch(to, []);
        MovesByOne(guess, old(manager.View(to)), Event(Cancel, 0.0, NO_CLOCK), manager.View(to), [], false);
      case _ =>
        ServeAll(manager, c);
        batch := Batch([], []);
    }
  }

  /** A call that concerns every peer and sends nothing to one. */
  method ServeAll(manager: SessionManager, c: Call)
    requires c.SweepCall? || c.ClearCall?
    modifies manager
    ensures forall id ::
              Moves(manager.readers.guess, old(manager.View(id)), EventsAt(manager.readers, id, c), manager.View(id),
                    [])
  {
    if c.SweepCall? {
      var order := KeysOf(manager.lastSeen);
      var _ := manager.SweepPeers(order, c.now, c.timeout);
    } else {
      manager.ClearAnnounceCooldown();
    }
    forall id
      ensures Moves(manager.readers.guess, old(manager.View(id)), EventsAt(manager.readers, id, c), manager.View(id),
                    [])
    {
      MovesByOne(manager.readers.guess, old(manager.View(id)), EventsAt(manager.readers, id, c)[0], manager.View(id),
                 [], false);
    }
  }

  /** The keys of a dictionary, in some order. */
  method KeysOf(m: map<PeerId, real>) returns (order: seq<PeerId>)
    ensures forall id :: id in order <==> id in m
  {
    order := [];
    var rest := m;
    while rest != map[]
      invariant forall id :: id in m <==> id in order || id in rest
      decreases rest.Keys
    {
      var id :| id in rest;
      order := order + [id];
      rest := rest - {id};
    }
  }

  lemma {:induction false} EventsNext(readers: Readers, id: PeerId, calls: seq<Call>, i: nat)
    requires i < |calls|
    ensures EventsOf(readers, id, calls[..i + 1]) == EventsOf(readers, id, calls[..i]) + EventsAt(readers, id, calls[i])
  {
    assert calls[..i + 1][..i] == calls[..i];
  }

  lemma {:induction false} SentNext(id: PeerId, sent: seq<Batch>, batch: Batch)
    ensures SentTo(id, sent + [batch]) == SentTo(id, sent) + if id == batch.to then batch.out else []
  {
    WithoutLast(sent, batch);
  }

  lemma {:induction false} MovesOn(
    guess: bytes -> Parsed, before: Peer, es: seq<Event>, out: seq<Out>, more: seq<Event>, after: Peer, last: seq<Out>)
    requires |more| <= 1 && Moves(guess, STRANGER, es, before, out) && Moves(guess, before, more, after, last)
    ensures Moves(guess, STRANGER, es + more, after, out + last)
  {
    RunOfMore(guess, STRANGER, es, more);
  }

  /** What serving `calls` comes to for one peer. */
  predicate Served(readers: Readers, id: PeerId, calls: seq<Call>, view: Peer, sent: seq<Batch>) {
    Moves(readers.guess, STRANGER, EventsOf(readers, id, calls), view, SentTo(id, sent))
  }

  lemma {:induction false} ServedNext(
    readers: Readers, id: PeerId, calls: seq<Call>, i: nat, before: Peer, sent: seq<Batch>, after: Peer, batch: Batch)
    requires i < |calls| && Served(readers, id, calls[..i], before, sent)
    requires Moves(readers.guess, before, EventsAt(readers, id, calls[i]), after,
                   if id == batch.to then batch.out else [])
    ensures Served(readers, id, calls[..i + 1], after, sent + [batch])
  {
    EventsNext(readers, id, calls, i);
    SentNext(id, sent, batch);
    MovesOn(readers.guess, before, EventsOf(readers, id, calls[..i]), SentTo(id, sent), EventsAt(readers, id, calls[i]),
            after, if id == batch.to then batch.out else []);
  }

  method ServeNext(manager: SessionManager, calls: seq<Call>, i: nat, sent: seq<Batch>) returns (more: seq<Batch>)
    requires i < |calls|
    requires forall id :: Served(manager.readers, id, calls[..i], manager.View(id), sent)
    modifies manager
    ensures forall id :: Served(manager.readers, id, calls[..i + 1], manager.View(id), more)
  {
    var batch := ServeOne(manager, calls[i]);
    more := sent + [batch];
    forall id
      ensures Served(manager.readers, id, calls[..i + 1], manager.View(id), more)
    {
      ServedNext(manager.readers, id, calls, i, old(manager.View(id)), sent, manager.View(id), batch);
    }
  }

  /** A manager that has met no one serves any calls, interleaved in any way: at the end each peer's dictionaries, and
      everything sent to it, are what that peer's own run comes to. So whatever holds of every run holds of the manager;
      in particular the handshake caches are as they should be. */
  method Serve(manager: SessionManager, calls: seq<Call>) returns (sent: seq<Batch>)
    requires forall id :: manager.View(id) == STRANGER
    modifies manager
    ensures forall id ::
              Run(manager.View(id), SentTo(id, sent))
              == RunOf(manager.readers.guess, STRANGER, EventsOf(manager.readers, id, calls))
    ensures forall id :: CachesLive(manager.View(id))
  {
    sent := [];
    for i := 0 to |calls|
      invariant forall id :: Served(manager.readers, id, calls[..i], manager.View(id), sent)
    {
      sent := ServeNext(manager, calls, i, sent);
    }
    assert calls[..|calls|] == calls;
    forall id
      ensures CachesLive(manager.View(id))
    {
      RunsKeepCaches(manager.readers.guess, EventsOf(manager.readers, id, calls));
    }
  }
}
