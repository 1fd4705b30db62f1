/** What every packet, command and timeout comes to for one peer, in the source's own numbers. */
module PeerRules {
  import opened Bytes
  import opened Seqs
  import opened Packets
  import opened Announcements
  import opened PrivatePayloads
  import opened NoiseTransport
  import opened Sessions
  import opened Handshakes
  import opened PendingSends

  // ----- Handshake messages -----

  /** The session that will answer a msg1: the one that waits for it, or a new one. */
  function AnswerNumber(p: Peer): nat {
    if p.session.Some? && p.session.value.noise.AwaitMsg1? && p.msg2.None? then p.session.value.number else p.created
  }

  /** The peer after msg2 went out in answer to `payload`. */
  predicate Answered(p: Peer, step: Step, payload: bytes, number: nat) {
    && step.out == [SendMsg2(Msg2(number, payload))] && !step.raised
    && step.peer.session == Some(Live(number, SentMsg2(payload))) && step.peer.msg2 == Some(Msg2(number, payload))
    && step.peer.queue == p.queue
  }

  /** The handshake is given up. */
  predicate Forgotten(p: Peer, step: Step) {
    && step.out == [] && !step.raised && step.peer.queue == p.queue
    && step.peer.session == None && step.peer.msg1 == None && step.peer.msg2 == None
  }

  /** A 32-byte message is a msg1. One that was answered gets the same answer again; any other one gets an answer from a
      session that has heard nothing yet, even if an established session was there, or the handshake is given up. */
  lemma Msg1Exactly(p: Peer, payload: bytes, c: Chance, now: real, clock: Clock)
    requires CachesLive(p) && |payload| == 32
    ensures
      var step := OnHandshake(p, payload, c, now, clock);
      if p.msg1 == Some(payload) && p.msg2.Some? then step == Step(p, [SendMsg2(p.msg2.value)], false)
      else if c.readable && c.writable then
        Answered(p, step, payload, AnswerNumber(p)) && step.peer.msg1 == Some(payload)
      else Forgotten(p, step)
  {
  }

  /** Any other message: a stranger's is ignored; an established session, or one that cannot read it, is given up; after
      msg2 it completes the handshake; before, it is answered like a msg1 but not remembered. */
  lemma OtherHandshakeExactly(p: Peer, payload: bytes, c: Chance, now: real, clock: Clock)
    requires CachesLive(p) && |payload| != 32
    ensures
      var step := OnHandshake(p, payload, c, now, clock);
      if p.session.None? then step == Step(p, [], false)
      else if p.Established() || !c.readable then Forgotten(p, step)
      else if p.session.value.noise.SentMsg2? then step == Drain(DropCaches(p), c.Transport(), now, clock)
      else if c.writable then Answered(p, step, payload, p.session.value.number) && step.peer.msg1 == p.msg1
      else Forgotten(p, step)
  {
  }

  /** A msg2 goes out for a msg1 if and only if the cached answer fits, or the message reads and the answer writes. */
  lemma Msg1AnsweredExactly(p: Peer, payload: bytes, c: Chance, now: real, clock: Clock)
    requires CachesLive(p) && |payload| == 32
    ensures (exists reply :: SendMsg2(reply) in OnHandshake(p, payload, c, now, clock).out)
       <==> (p.msg1 == Some(payload) && p.msg2.Some?) || (c.readable && c.writable)
  {
    Msg1Exactly(p, payload, c, now, clock);
    var step := OnHandshake(p, payload, c, now, clock);
    if step.out != [] {
      assert step.out[0].SendMsg2? && SendMsg2(step.out[0].msg2) in step.out;
    }
  }

  /** A phone that restarted: from any established session, msg1 is answered by a new session, and msg3 establishes that
      session with the new keys and drains the queue; with nothing queued, nonce and count are zero. */
  lemma {:induction false} HandshakeAgain(
    guess: bytes -> Parsed, p: Peer, msg1: bytes, c1: Chance, msg3: bytes, c3: Chance, now1: real, clock1: Clock,
    now3: real, clock3: Clock)
    requires CachesLive(p) && p.Established()
    requires |msg1| == 32 && c1.readable && c1.writable && |msg3| != 32 && c3.readable
    ensures
      var first := React(guess, p, Event(HandshakeIn(msg1, c1), now1, clock1));
      var second := React(guess, first.peer, Event(HandshakeIn(msg3, c3), now3, clock3));
      var drained := DrainQueue(c3.Transport(), FreshOnly(p.queue, now3), clock3);
      && first.out == [SendMsg2(Msg2(p.created, msg1))]
      && second.peer.session == Some(Live(p.created, Ready(drained.transport)))
      && second.out == drained.out && second.peer.queue == []
      && (p.queue == [] ==>
            drained.transport
            == Session(Transport, Some(Key(c3.sendSecret, 0)), Some(Key(c3.recvSecret, 0)), 0, 0, c3.at))
  {
    var e1 := Event(HandshakeIn(msg1, c1), now1, clock1);
    var first := React(guess, p, e1);
    Msg1Exactly(Seen(p, e1), msg1, c1, now1, clock1);
    EveryStepKeepsCaches(guess, p, e1);
    OtherHandshakeExactly(Seen(first.peer, Event(HandshakeIn(msg3, c3), now3, clock3)), msg3, c3, now3, clock3);
  }

  // ----- Encrypted messages -----

  predicate IsMail(m: Parsed) {
    m.Text? || m.File?
  }

  /** A text or a file is answered with two receipts for its id, a delivery receipt and then a read receipt; receipts
      and unknown contents are not answered. Either way the failures are forgotten. */
  lemma MailAnsweredExactly(p: Peer, guess: bytes -> Parsed, wire: Message, now: real, clock: Clock)
    requires CachesLive(p) && p.Established()
    requires Decrypt(p.session.value.noise.transport, wire).Some?
    ensures
      var mail := ParseIncoming(guess, Decrypt(p.session.value.noise.transport, wire).value);
      var step := OnEncrypted(p, guess, wire, now, clock);
      && step.peer.fails == 0 && step.peer.queue == p.queue && step.peer.Established()
      && step.peer.session.value.number == p.session.value.number
      && if IsMail(mail) then
           && |step.out| == 2
           && IsSealedReceipt(step.out[0], 0x03, mail.id) && IsSealedReceipt(step.out[1], 0x02, mail.id)
         else step.out == [] && step.peer == p.(fails := 0)
  {
    var t := p.session.value.noise.transport;
    var mail := ParseIncoming(guess, Decrypt(t, wire).value);
    if IsMail(mail) {
      TwoReceipts(p.(fails := 0), t, mail.id, clock);
    }
  }

  predicate IsSealedReceipt(o: Out, kind: byte, id: bytes) {
    o.SendSealed? && o.wire.Framed? && o.wire.body.Sealed? && o.wire.body.plaintext == [kind] + id
  }

  lemma TwoReceipts(p: Peer, t: Session, id: bytes, clock: Clock)
    requires p.session.Some? && WellKept(t)
    ensures
      var out := SendReceipts(p, t, id, clock).out;
      |out| == 2 && IsSealedReceipt(out[0], 0x03, id) && IsSealedReceipt(out[1], 0x02, id)
  {
    var first := EncodeReceipt(DELIVERY_RECEIPT, id);
    EncryptNeverExhausts(t, first, clock(0).now, clock(0).restart);
    EncryptNeverExhausts(Encrypt(t, first, clock(0).now, clock(0).restart).0, EncodeReceipt(READ_RECEIPT, id),
                         clock(1).now, clock(1).restart);
  }

  /** The peer is told to start over: LEAVE, a new session, ANNOUNCE. */
  predicate StartsOver(p: Peer, step: Step) {
    step.out == [SendLeave, SendAnnounce] && step.peer.session == Some(Live(p.created, AwaitMsg1))
  }

  /** A message that does not decrypt is counted; the third in a row, and no earlier one, makes the peer start over. */
  lemma ThirdFailureResets(p: Peer, guess: bytes -> Parsed, wire: Message, now: real, clock: Clock)
    requires p.Established() && Decrypt(p.session.value.noise.transport, wire).None? && p.fails <= 2
    ensures
      var step := OnEncrypted(p, guess, wire, now, clock);
      if p.fails == 2 then StartsOver(p, step) && step.peer.fails == 0
      else step == Step(p.(fails := p.fails + 1), [], false)
  {
  }

  /** Without an established session, every encrypted message does. */
  lemma NoSessionStartsOver(p: Peer, guess: bytes -> Parsed, wire: Message, now: real, clock: Clock)
    requires !p.Established()
    ensures StartsOver(p, OnEncrypted(p, guess, wire, now, clock))
  {
  }

  // ----- ANNOUNCE -----

  /** An ANNOUNCE is echoed exactly when the last one to this peer is at least 10 s ago, readable or not; a readable one
      that brings another Noise key than before drops the session and the handshake caches, and no other one does. */
  lemma AnnounceExactly(p: Peer, ann: Option<Announcement>, now: real)
    ensures
      var step := OnAnnounce(p, ann, now);
      var last := if p.announcedAt.Some? then p.announcedAt.value else 0.0;
      && step.out == (if now - last >= 10.0 then [SendAnnounce] else [])
      && step.peer.announcedAt == (if now - last >= 10.0 then Some(now) else p.announcedAt)
      && step.peer.queue == p.queue
      && (ann.Some? ==> step.peer.nick == Some(ann.value.nickname) && step.peer.noisePub == Some(ann.value.noisePub))
      && (ann.None? ==> step.peer.nick == p.nick && step.peer.noisePub == p.noisePub)
      && if ann.Some? && p.noisePub.Some? && p.noisePub.value != ann.value.noisePub
         then step.peer.session == None && step.peer.msg1 == None && step.peer.msg2 == None
         else step.peer.session == p.session && step.peer.msg1 == p.msg1 && step.peer.msg2 == p.msg2
  {
  }

  /** A REQUEST_SYNC is answered under the same cooldown, and changes nothing else. */
  lemma SyncExactly(guess: bytes -> Parsed, p: Peer, e: Event)
    requires e.input == SyncIn
    ensures
      var step := React(guess, p, e);
      var last := if p.announcedAt.Some? then p.announcedAt.value else 0.0;
      if e.now - last >= 10.0
      then step == Step(p.(lastSeen := Some(e.now), announcedAt := Some(e.now)), [SendAnnounce], false)
      else step == Step(p.(lastSeen := Some(e.now)), [], false)
  {
  }

  /** The type byte decides: 1 ANNOUNCE, 3 LEAVE, 16 handshake, 17 encrypted, 33 REQUEST_SYNC; no other type changes
      anything but the time of last contact. */
  lemma TypeByteDecides(readers: Readers, p: Packet, chance: Chance)
    ensures
      var input := InputOf(readers, p, chance);
      && (p.packetType == 0x01 ==> input == AnnounceIn(DecodeAnnounce(readers.lossy, p.payload)))
      && (p.packetType == 0x03 ==> input == LeaveIn)
      && (p.packetType == 0x10 ==> input == HandshakeIn(p.payload, chance))
      && (p.packetType == 0x11 ==> input == EncryptedIn(readers.seal(p.payload)))
      && (p.packetType == 0x21 ==> input == SyncIn)
      && (p.packetType !in {0x01, 0x03, 0x10, 0x11, 0x21} ==> input == OtherIn)
  {
  }

  lemma OtherTypesIgnored(guess: bytes -> Parsed, p: Peer, e: Event)
    requires e.input == OtherIn
    ensures React(guess, p, e) == Step(p.(lastSeen := Some(e.now)), [], false)
  {
  }

  // ----- Leaving -----

  /** Nothing is known of the peer but, perhaps, when it was last heard. */
  predicate IsForgotten(p: Peer) {
    && p.session == None && p.msg1 == None && p.msg2 == None && p.queue == []
    && p.nick == None && p.noisePub == None && p.announcedAt == None
  }

  /** A sweep forgets a peer exactly if it has announced itself and sent no packet of any kind for longer than the
      timeout; everyone else stays as they are. */
  lemma SweepForgetsExactly(guess: bytes -> Parsed, p: Peer, timeout: real, e: Event)
    requires e.input == Sweep(timeout)
    ensures
      var after := React(guess, p, e).peer;
      if p.nick.Some? && p.lastSeen.Some? && e.now - p.lastSeen.value > timeout
      then IsForgotten(after) && after.lastSeen == None
      else after == p
    ensures React(guess, p, e).out == []
  {
  }

  /** LEAVE forgets the peer at once. */
  lemma LeaveForgets(guess: bytes -> Parsed, p: Peer, e: Event)
    requires e.input == LeaveIn
    ensures IsForgotten(React(guess, p, e).peer) && React(guess, p, e).out == []
  {
  }

  /** Every packet, not only an ANNOUNCE, counts as a sign of life; nothing else does. */
  lemma LastSeenExactly(guess: bytes -> Parsed, p: Peer, e: Event)
    requires !e.input.Sweep?
    ensures React(guess, p, e).peer.lastSeen == if e.input.IsPacket() then Some(e.now) else p.lastSeen
  {
    if e.input.HandshakeIn? {
      HandshakeKeepsLastSeen(Seen(p, e), e.input.payload, e.input.chance, e.now, e.clock);
    }
  }

  lemma HandshakeKeepsLastSeen(p: Peer, payload: bytes, c: Chance, now: real, clock: Clock)
    ensures OnHandshake(p, payload, c, now, clock).peer.lastSeen == p.lastSeen
  {
  }

  // ----- Sending -----

  /** A message goes out at once if there is an established session and someone to hear it, raises if it does not fit
      its length byte, and is queued at the end otherwise, with an ANNOUNCE as an invitation; an empty one is
      refused. */
  lemma SendExactly(guess: bytes -> Parsed, p: Peer, content: bytes, id: bytes, reachable: bool, e: Event)
    requires CachesLive(p) && e.input == SendText(content, id, reachable) && |id| == 36
    ensures
      var step := React(guess, p, e);
      if content == [] then step == Step(p, [], false)
      else if !p.Established() || !reachable then
        && step.out == [SendAnnounce] && !step.raised && step.peer.session == p.session
        && step.peer.queue == p.queue + [Queued(content, id, e.now)]
      else
        && step.peer.queue == p.queue && (step.raised <==> |content| > 255)
        && SentIds(step.out) == (if |content| <= 255 then [id] else [])
  {
    if content != [] && p.Established() && reachable {
      DirectSend(p, content, id, e.clock);
    }
  }

  /** A queued message is young for ten minutes, and the young ones keep their order. */
  lemma {:induction false} FreshExactly(queue: seq<Queued>, now: real)
    ensures forall q :: q in FreshOnly(queue, now) <==> q in queue && now - q.time < 600.0
    ensures (forall q :: q in queue ==> now - q.time < 600.0) ==> FreshOnly(queue, now) == queue
  {
    if queue != [] {
      var n := |queue| - 1;
      FreshExactly(queue[..n], now);
      assert queue == queue[..n] + [queue[n]];
    }
  }

  /** Each message is transmitted, and reported as delivered right after. */
  predicate ReportsEach(out: seq<Out>, queue: seq<Queued>) {
    && |out| == 2 * |queue|
    && forall i :: 0 <= i < |queue| ==> SentId(out[2 * i]) == [queue[i].id] && out[2 * i + 1] == Delivered(queue[i].id)
  }

  lemma ReportsOneMore(out: seq<Out>, queue: seq<Queued>, o: Out, q: Queued)
    requires ReportsEach(out, queue) && SentId(o) == [q.id]
    ensures ReportsEach(out + [o, Delivered(q.id)], queue + [q])
  {
    var all := out + [o, Delivered(q.id)];
    forall i | 0 <= i < |queue| + 1
      ensures SentId(all[2 * i]) == [(queue + [q])[i].id] && all[2 * i + 1] == Delivered((queue + [q])[i].id)
    {
      if i < |queue| {
        assert all[2 * i] == out[2 * i] && all[2 * i + 1] == out[2 * i + 1];
      }
    }
  }

  lemma {:induction false} DrainReports(t: Session, queue: seq<Queued>, clock: Clock)
    requires WellKept(t)
    ensures ReportsEach(DrainQueue(t, queue, clock).out, FittingPrefix(queue))
  {
    if queue != [] {
      var n := |queue| - 1;
      DrainReports(t, queue[..n], clock);
      DrainSends(t, queue[..n], clock);
      var before := DrainQueue(t, queue[..n], clock);
      if !before.raised && Fits(queue[n]) {
        DrainKeepsTransport(t, queue[..n], clock);
        var payload := EncodeText(queue[n].content, queue[n].id).value;
        var wire := Encrypt(before.transport, payload, clock(n).now, clock(n).restart).1;
        EncryptNeverExhausts(before.transport, payload, clock(n).now, clock(n).restart);
        TextIdOfText(queue[n].content, queue[n].id);
        SplitLast(queue);
        ReportsOneMore(before.out, queue[..n], SendSealed(wire.value), queue[n]);
      }
    }
  }

  /** When a handshake completes, each young message that goes out is reported as delivered, in queue order. */
  lemma {:induction false} CompletionReports(p: Peer, payload: bytes, c: Chance, now: real, clock: Clock)
    requires CachesLive(p) && Completes(p, payload, c)
    ensures ReportsEach(OnHandshake(p, payload, c, now, clock).out, FittingPrefix(FreshOnly(p.queue, now)))
  {
    CompletesExactly(p, payload, c, now, clock);
    DrainReports(c.Transport(), FreshOnly(p.queue, now), clock);
  }

  /** Once the cooldowns are cleared, the next ANNOUNCE is echoed at once, however recent the last one. */
  lemma CooldownCleared(guess: bytes -> Parsed, p: Peer, clear: Event, e: Event)
    requires clear.input == ClearCooldown && e.input.AnnounceIn? && e.now >= 10.0
    ensures React(guess, React(guess, p, clear).peer, e).out == [SendAnnounce]
    ensures React(guess, p, clear).peer.session == p.session && React(guess, p, clear).peer.queue == p.queue
  {
  }

  /** A file goes out at once if there is an established session, and not at all otherwise. */
  lemma SendFileExactly(guess: bytes -> Parsed, p: Peer, data: bytes, id: bytes, e: Event)
    requires CachesLive(p) && e.input == SendFile(data, id) && |id| == 36
    ensures
      var step := React(guess, p, e);
      if !p.Established() then step == Step(p, [], false)
      else
        && |step.out| == 1 && step.out[0].SendSealed? && step.out[0].wire.Framed?
        && step.out[0].wire.body.Sealed? && EncodeFile(data, id) == Some(step.out[0].wire.body.plaintext)
  {
    if p.Established() {
      EncryptNeverExhausts(p.session.value.noise.transport, EncodeFile(data, id).value, e.clock(0).now,
                           e.clock(0).restart);
    }
  }

  // ----- Rekeying -----

  /** A session rekeys exactly at the first message an hour after it started or after 10,000 messages: both keys
      advance, the message has nonce 0, and the hour starts anew; otherwise the nonce counts on. */
  lemma RekeysExactly(s: Session, plaintext: bytes, now: real, restart: real)
    requires WellKept(s)
    ensures
      var (after, wire) := Encrypt(s, plaintext, now, restart);
      && wire.Some? && wire.value.Framed?
      && if now - s.start >= 3600.0 || s.msgCount >= 10_000 then
           && after == Session(Transport, Some(s.send.value.Rekeyed()), Some(s.recv.value.Rekeyed()), 1, 1, restart)
           && wire.value == Framed(0, Sealed(s.send.value.Rekeyed(), 0, plaintext))
         else
           && after == s.(sendNonce := s.sendNonce + 1, msgCount := s.msgCount + 1)
           && wire.value == Framed(s.sendNonce, Sealed(s.send.value, s.sendNonce, plaintext))
  {
  }
}
