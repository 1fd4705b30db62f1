/** The handshake caches: what every handler keeps, and when a retried msg1 gets the right answer. */
module Handshakes {
  import opened Bytes
  import opened Seqs
  import opened PrivatePayloads
  import opened NoiseTransport
  import opened Sessions

  /** A cached msg2 means a live session that is not established; a cached msg1 means a cached msg2; every session that
      has answered has its answer cached. */
  predicate CachesLive(p: Peer) {
    && (p.msg2.Some? ==> p.session.Some? && !p.Established() && p.msg2.value.session < p.created)
    && (p.msg1.Some? ==> p.msg2.Some?)
    && (p.session.Some? ==> p.session.value.number < p.created)
    && (p.session.Some? && p.session.value.noise.SentMsg2? ==> p.msg2.Some?)
    && (p.Established() ==> WellKept(p.session.value.noise.transport))
  }

  lemma {:induction false} DrainKeepsTransport(t: Session, queue: seq<Queued>, clock: Clock)
    requires WellKept(t)
    ensures WellKept(DrainQueue(t, queue, clock).transport)
  {
    if queue != [] {
      var n := |queue| - 1;
      var before := DrainQueue(t, queue[..n], clock);
      DrainKeepsTransport(t, queue[..n], clock);
      var payload := EncodeText(queue[n].content, queue[n].id);
      if payload.Some? {
        EncryptNeverExhausts(before.transport, payload.value, clock(n).now, clock(n).restart);
      }
    }
  }

  lemma HandshakeKeepsCaches(p: Peer, payload: bytes, c: Chance, now: real, clock: Clock)
    requires CachesLive(p)
    ensures CachesLive(OnHandshake(p, payload, c, now, clock).peer)
  {
    if p.session.Some? || IsMsg1(payload) {
      var reader := ReaderFor(p, payload);
      ReaderKeepsCaches(p, payload);
      if !IsRetry(reader, payload) {
        ReadKeepsCaches(Restarted(reader, payload), payload, c, now, clock);
      }
    }
  }

  lemma ReaderKeepsCaches(p: Peer, payload: bytes)
    requires CachesLive(p) && (p.session.Some? || IsMsg1(payload))
    ensures
      var reader := ReaderFor(p, payload);
      && CachesLive(reader) && reader.session.Some?
      && CachesLive(Restarted(reader, payload)) && Restarted(reader, payload).session.Some?
  {
  }

  lemma ReadKeepsCaches(p: Peer, payload: bytes, c: Chance, now: real, clock: Clock)
    requires CachesLive(p) && p.session.Some?
    ensures CachesLive(ReadHandshake(p, payload, c, now, clock).peer)
  {
    DrainKeepsTransport(c.Transport(), FreshOnly(p.queue, now), clock);
  }

  lemma EncryptedKeepsCaches(p: Peer, guess: bytes -> Parsed, wire: Message, now: real, clock: Clock)
    requires CachesLive(p)
    ensures CachesLive(OnEncrypted(p, guess, wire, now, clock).peer)
  {
    if p.Established() {
      forall id
        ensures CachesLive(SendReceipts(p.(fails := 0), p.session.value.noise.transport, id, clock).peer)
      {
        ReceiptsKeepCaches(p, id, clock);
      }
    }
  }

  lemma ReceiptsKeepCaches(p: Peer, id: bytes, clock: Clock)
    requires CachesLive(p) && p.Established()
    ensures CachesLive(SendReceipts(p.(fails := 0), p.session.value.noise.transport, id, clock).peer)
  {
    var t := p.session.value.noise.transport;
    var first := EncodeReceipt(DELIVERY_RECEIPT, id);
    EncryptNeverExhausts(t, first, clock(0).now, clock(0).restart);
    EncryptNeverExhausts(Encrypt(t, first, clock(0).now, clock(0).restart).0, EncodeReceipt(READ_RECEIPT, id),
                         clock(1).now, clock(1).restart);
  }

  lemma PayloadKeepsCaches(p: Peer, payload: Option<bytes>, clock: Clock)
    requires CachesLive(p) && p.Established()
    ensures CachesLive(SendPayload(p, payload, clock).peer)
  {
    if payload.Some? {
      EncryptNeverExhausts(p.session.value.noise.transport, payload.value, clock(0).now, clock(0).restart);
    }
  }

  /** Every packet, command and timeout keeps the caches as CachesLive says. */
  lemma EveryStepKeepsCaches(guess: bytes -> Parsed, p: Peer, e: Event)
    requires CachesLive(p)
    ensures CachesLive(React(guess, p, e).peer)
  {
    var q := Seen(p, e);
    match e.input
    case HandshakeIn(payload, chance) => HandshakeKeepsCaches(q, payload, chance, e.now, e.clock);
    case EncryptedIn(wire) => EncryptedKeepsCaches(q, guess, wire, e.now, e.clock);
    case SendText(content, id, _) => if p.Established() { PayloadKeepsCaches(p, EncodeText(content, id), e.clock); }
    case SendFile(data, id) => if p.Established() { PayloadKeepsCaches(p, EncodeFile(data, id), e.clock); }
    case _ =>
  }

  /** So over every run: a cached msg2 means a live unestablished session, an established session has empty caches. */
  lemma {:induction false} RunsKeepCaches(guess: bytes -> Parsed, events: seq<Event>)
    ensures CachesLive(RunOf(guess, STRANGER, events).peer)
  {
    if events != [] {
      var n := |events| - 1;
      RunsKeepCaches(guess, events[..n]);
      EveryStepKeepsCaches(guess, RunOf(guess, STRANGER, events[..n]).peer, events[n]);
    }
  }

  // ----- The cached pair belongs to the current session -----

  /** The cached answer was written by the session in place, for the message it heard; so is a cached msg1. */
  predicate PairMatches(p: Peer) {
    p.msg2.Some? ==>
      && p.session == Some(Live(p.msg2.value.session, SentMsg2(p.msg2.value.heard)))
      && (p.msg1.Some? ==> p.msg1.value == p.msg2.value.heard)
  }

  /** A NOISE_ENCRYPTED that arrives after msg2 and before msg3. */
  predicate Interrupts(p: Peer, e: Event) {
    e.input.EncryptedIn? && !p.Established() && p.msg2.Some?
  }

  /** A step keeps the pair matching exactly when it is not such an interruption. */
  lemma PairMatchesExactly(guess: bytes -> Parsed, p: Peer, e: Event)
    requires CachesLive(p) && PairMatches(p)
    ensures PairMatches(React(guess, p, e).peer) <==> !Interrupts(p, e)
  {
    if e.input.HandshakeIn? {
      HandshakeMatches(Seen(p, e), e.input.payload, e.input.chance, e.now, e.clock);
    }
  }

  lemma HandshakeMatches(p: Peer, payload: bytes, c: Chance, now: real, clock: Clock)
    requires CachesLive(p) && PairMatches(p)
    ensures PairMatches(OnHandshake(p, payload, c, now, clock).peer)
  {
  }

  ghost predicate NeverInterrupted(guess: bytes -> Parsed, events: seq<Event>) {
    forall i :: 0 <= i < |events| ==> !Interrupts(RunOf(guess, STRANGER, events[..i]).peer, events[i])
  }

  ghost predicate AlwaysMatches(guess: bytes -> Parsed, events: seq<Event>) {
    forall i :: 0 <= i <= |events| ==> PairMatches(RunOf(guess, STRANGER, events[..i]).peer)
  }

  lemma {:induction false} AlwaysMatchesSoFar(guess: bytes -> Parsed, events: seq<Event>, n: nat)
    requires n + 1 == |events|
    ensures AlwaysMatches(guess, events) <==>
            AlwaysMatches(guess, events[..n]) && PairMatches(RunOf(guess, STRANGER, events).peer)
  {
    assert events[..n + 1] == events;
    if AlwaysMatches(guess, events) {
      MatchedBefore(guess, events, n);
    } else {
      var i :| 0 <= i <= |events| && !PairMatches(RunOf(guess, STRANGER, events[..i]).peer);
      assert i <= n ==> events[..n][..i] == events[..i];
    }
  }

  lemma {:induction false} MatchedBefore(guess: bytes -> Parsed, events: seq<Event>, n: nat)
    requires n <= |events| && AlwaysMatches(guess, events)
    ensures AlwaysMatches(guess, events[..n])
  {
    PrefixesOfPrefix(events, n);
    forall i | 0 <= i <= n
      ensures PairMatches(RunOf(guess, STRANGER, events[..n][..i]).peer)
    {
      assert PairMatches(RunOf(guess, STRANGER, events[..i]).peer);
    }
  }

  lemma {:induction false} NeverInterruptedSoFar(guess: bytes -> Parsed, events: seq<Event>, n: nat)
    requires n + 1 == |events|
    ensures NeverInterrupted(guess, events) <==>
            NeverInterrupted(guess, events[..n]) && !Interrupts(RunOf(guess, STRANGER, events[..n]).peer, events[n])
  {
    PrefixesOfPrefix(events, n);
  }

  /** Along a run the cached pair always matches if and only if no NOISE_ENCRYPTED arrived in mid-handshake. */
  lemma {:induction false} RunsMatchExactly(guess: bytes -> Parsed, events: seq<Event>)
    ensures AlwaysMatches(guess, events) <==> NeverInterrupted(guess, events)
  {
    if events == [] {
      assert events[..0] == [];
    } else {
      var n := |events| - 1;
      var before := RunOf(guess, STRANGER, events[..n]).peer;
      RunsMatchExactly(guess, events[..n]);
      RunsKeepCaches(guess, events[..n]);
      AlwaysMatchesSoFar(guess, events, n);
      NeverInterruptedSoFar(guess, events, n);
      if AlwaysMatches(guess, events[..n]) {
        assert events[..n][..n] == events[..n];
        PairMatchesExactly(guess, before, events[n]);
      }
    }
  }

  // ----- Replies -----

  /** The reply was written by the session in place, for the very message it answers. */
  predicate RightReply(after: Peer, payload: bytes, reply: Msg2) {
    reply.heard == payload && after.session == Some(Live(reply.session, SentMsg2(payload)))
  }

  /** Every msg2 that goes out is the right reply, unless it is the resent answer of a pair that no longer matches. */
  lemma RepliesRightExactly(p: Peer, payload: bytes, c: Chance, now: real, clock: Clock)
    requires CachesLive(p)
    ensures
      var step := OnHandshake(p, payload, c, now, clock);
      forall reply | SendMsg2(reply) in step.out ::
        RightReply(step.peer, payload, reply) <==> !IsRetry(p, payload) || PairMatches(p)
  {
    NoMsg2Drained(c.Transport(), FreshOnly(p.queue, now), clock);
  }

  lemma {:induction false} NoMsg2Drained(t: Session, queue: seq<Queued>, clock: Clock)
    ensures forall reply :: SendMsg2(reply) !in DrainQueue(t, queue, clock).out
  {
    if queue != [] {
      NoMsg2Drained(t, queue[..|queue| - 1], clock);
    }
  }

  /** A phone that sends msg1 again gets the cached answer again, and nothing else changes. */
  lemma RetryAnswered(p: Peer, payload: bytes, c: Chance, now: real, clock: Clock)
    requires CachesLive(p) && PairMatches(p) && IsRetry(p, payload)
    ensures
      var step := OnHandshake(p, payload, c, now, clock);
      step.peer == p && step.out == [SendMsg2(p.msg2.value)] && RightReply(p, payload, p.msg2.value)
  {
  }

  /** Any other msg1 makes the caches match again, whatever happened before. */
  lemma NewMsg1Restores(p: Peer, payload: bytes, c: Chance, now: real, clock: Clock)
    requires CachesLive(p) && IsMsg1(payload) && !IsRetry(p, payload)
    ensures PairMatches(OnHandshake(p, payload, c, now, clock).peer)
  {
  }

  /** msg1, a NOISE_ENCRYPTED, and msg1 again: the second answer comes from a session that is gone. */
  lemma StaleReply(guess: bytes -> Parsed, payload: bytes, c: Chance, wire: Message, now: real, clock: Clock)
    requires IsMsg1(payload) && c.readable && c.writable
    ensures
      var msg1 := Event(HandshakeIn(payload, c), now, clock);
      var run := RunOf(guess, STRANGER, [msg1, Event(EncryptedIn(wire), now, clock), msg1]);
      && run.out == [SendMsg2(Msg2(0, payload)), SendLeave, SendAnnounce, SendMsg2(Msg2(0, payload))]
      && run.peer.session == Some(Live(1, AwaitMsg1))
  {
    var msg1 := Event(HandshakeIn(payload, c), now, clock);
    var events := [msg1, Event(EncryptedIn(wire), now, clock), msg1];
    assert events[..2] == [msg1, events[1]] && events[..2][..1] == [msg1] && events[..2][..1][..0] == [];
    assert RunOf(guess, STRANGER, [msg1]).peer.msg2 == Some(Msg2(0, payload));
  }

  /** A handshake message leaves an established session exactly when a session that had answered reads a msg3. */
  predicate Completes(p: Peer, payload: bytes, c: Chance) {
    p.session.Some? && p.session.value.noise.SentMsg2? && !IsMsg1(payload) && c.readable
  }

  lemma CompletesExactly(p: Peer, payload: bytes, c: Chance, now: real, clock: Clock)
    requires CachesLive(p)
    ensures OnHandshake(p, payload, c, now, clock).peer.Established() <==> Completes(p, payload, c)
    ensures Completes(p, payload, c) ==>
              OnHandshake(p, payload, c, now, clock) == Drain(DropCaches(p), c.Transport(), now, clock)
  {
  }
}
