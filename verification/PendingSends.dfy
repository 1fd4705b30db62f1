/** Where private messages go: each id a client was given is transmitted at most once, still queued, or dropped. */
module PendingSends {
  import opened Bytes
  import opened Seqs
  import opened Utf8
  import opened PrivatePayloads
  import opened NoiseTransport
  import opened Sessions
  import opened Handshakes

  // ----- Accounts -----

  function Ids(queue: seq<Queued>): (ids: seq<bytes>)
    ensures |ids| == |queue|
  {
    if queue == [] then [] else Ids(queue[..|queue| - 1]) + [queue[|queue| - 1].id]
  }

  lemma {:induction false} IdsAppend(a: seq<Queued>, b: seq<Queued>)
    ensures Ids(a + b) == Ids(a) + Ids(b)
  {
    if b == [] {
      assert a + b == a;
    } else {
      IdsAppend(a, b[..|b| - 1]);
      assert (a + b)[..|a + b| - 1] == a + b[..|b| - 1];
    }
  }

  /** How often `id` occurs. */
  function Times(ids: seq<bytes>, id: bytes): nat {
    if ids == [] then 0 else Times(ids[..|ids| - 1], id) + if ids[|ids| - 1] == id then 1 else 0
  }

  lemma {:induction false} TimesAppend(a: seq<bytes>, b: seq<bytes>, id: bytes)
    ensures Times(a + b, id) == Times(a, id) + Times(b, id)
  {
    if b == [] {
      assert a + b == a;
    } else {
      var n := |b| - 1;
      TimesAppend(a, b[..n], id);
      assert (a + b)[..|a + b| - 1] == a + b[..n];
    }
  }

  lemma {:induction false} TimesOccurs(ids: seq<bytes>, id: bytes)
    ensures id in ids <==> Times(ids, id) > 0
  {
    if ids != [] {
      var n := |ids| - 1;
      TimesOccurs(ids[..n], id);
      assert ids == ids[..n] + [ids[n]];
    }
  }

  /** The message id in a sealed packet, read off its plaintext. */
  function SentId(o: Out): seq<bytes> {
    if o.SendSealed? && o.wire.Framed? && o.wire.body.Sealed? && TextId(o.wire.body.plaintext).Some?
    then [TextId(o.wire.body.plaintext).value]
    else []
  }

  /** The message ids that go out on the wire, in order. */
  function SentIds(out: seq<Out>): seq<bytes> {
    if out == [] then [] else SentIds(out[..|out| - 1]) + SentId(out[|out| - 1])
  }

  lemma {:induction false} SentIdsAppend(a: seq<Out>, b: seq<Out>)
    ensures SentIds(a + b) == SentIds(a) + SentIds(b)
  {
    if b == [] {
      AppendNothing(a);
      AppendNothing(SentIds(a));
    } else {
      var n := |b| - 1;
      SplitLast(b);
      SentIdsAppend(a, b[..n]);
      AppendOne(a, b[..n], b[n]);
    }
  }

  lemma {:induction false} AppendOne(a: seq<Out>, b: seq<Out>, o: Out)
    requires SentIds(a + b) == SentIds(a) + SentIds(b)
    ensures SentIds(a + (b + [o])) == SentIds(a) + SentIds(b + [o])
  {
    Associative(a, b, [o]);
    Associative(SentIds(a), SentIds(b), SentId(o));
    SentIdsNext(a + b, o);
    SentIdsNext(b, o);
  }

  lemma {:induction false} SentIdsNext(out: seq<Out>, o: Out)
    ensures SentIds(out + [o]) == SentIds(out) + SentId(o)
  {
    WithoutLast(out, o);
  }

  /** Does the payload fit its length fields? */
  predicate Fits(q: Queued) {
    EncodeText(q.content, q.id).Some?
  }

  /** The queue up to the first message that does not fit. */
  function FittingPrefix(queue: seq<Queued>): (r: seq<Queued>)
    ensures r <= queue
  {
    if queue == [] then []
    else
      var n := |queue| - 1;
      if FittingPrefix(queue[..n]) == queue[..n] && Fits(queue[n]) then queue else FittingPrefix(queue[..n])
  }

  lemma {:induction false} FittingPrefixExactly(queue: seq<Queued>)
    ensures forall q :: q in FittingPrefix(queue) ==> Fits(q)
    ensures |FittingPrefix(queue)| < |queue| ==> !Fits(queue[|FittingPrefix(queue)|])
  {
    if queue != [] {
      var n := |queue| - 1;
      FittingPrefixExactly(queue[..n]);
      assert queue == queue[..n] + [queue[n]];
    }
  }

  function Stale(queue: seq<Queued>, now: real): seq<Queued> {
    if queue == [] then []
    else
      var n := |queue| - 1;
      if IsFresh(queue[n], now) then Stale(queue[..n], now) else Stale(queue[..n], now) + [queue[n]]
  }

  lemma {:induction false} FreshAndStale(queue: seq<Queued>, now: real, id: bytes)
    ensures Times(Ids(queue), id) == Times(Ids(FreshOnly(queue, now)), id) + Times(Ids(Stale(queue, now)), id)
  {
    if queue != [] {
      var n := |queue| - 1;
      FreshAndStale(queue[..n], now, id);
      SplitLast(queue);
      OneMore(queue[..n], FreshOnly(queue[..n], now), Stale(queue[..n], now), queue[n], id);
    }
  }

  /** A message that joins a queue and one of the two parts it falls into. */
  lemma {:induction false} OneMore(queue: seq<Queued>, a: seq<Queued>, b: seq<Queued>, q: Queued, id: bytes)
    requires Times(Ids(queue), id) == Times(Ids(a), id) + Times(Ids(b), id)
    ensures Times(Ids(queue + [q]), id) == Times(Ids(a + [q]), id) + Times(Ids(b), id)
    ensures Times(Ids(queue + [q]), id) == Times(Ids(a), id) + Times(Ids(b + [q]), id)
  {
    TimesOfLast(queue, q, id);
    TimesOfLast(a, q, id);
    TimesOfLast(b, q, id);
  }

  lemma {:induction false} TimesOfOne(x: bytes, id: bytes)
    ensures Times([x], id) == if x == id then 1 else 0
    ensures Times([], id) == 0
  {
    assert [x][..0] == [];
  }

  lemma {:induction false} IdsOfLast(queue: seq<Queued>, q: Queued)
    ensures Ids(queue + [q]) == Ids(queue) + [q.id]
  {
    WithoutLast(queue, q);
  }

  lemma {:induction false} TimesOfLast(queue: seq<Queued>, q: Queued, id: bytes)
    ensures Times(Ids(queue + [q]), id) == Times(Ids(queue), id) + if q.id == id then 1 else 0
  {
    IdsOfLast(queue, q);
    TimesAppend(Ids(queue), [q.id], id);
    TimesOfOne(q.id, id);
  }

  // ----- Draining -----

  /** Draining sends the ids of the fitting prefix, in queue order, and raises exactly when something did not fit. */
  lemma {:induction false} DrainSends(t: Session, queue: seq<Queued>, clock: Clock)
    requires WellKept(t)
    ensures SentIds(DrainQueue(t, queue, clock).out) == Ids(FittingPrefix(queue))
    ensures DrainQueue(t, queue, clock).raised <==> FittingPrefix(queue) != queue
  {
    if queue != [] {
      var n := |queue| - 1;
      DrainSends(t, queue[..n], clock);
      FittingPrefixExactly(queue[..n]);
      var before := DrainQueue(t, queue[..n], clock);
      if !before.raised && Fits(queue[n]) {
        DrainKeepsTransport(t, queue[..n], clock);
        SealedSends(before.transport, queue[n], before.out, clock(n));
      }
    }
  }

  lemma {:induction false} SealedSends(t: Session, q: Queued, out: seq<Out>, r: Reading)
    requires WellKept(t) && Fits(q)
    ensures
      var (_, wire) := Encrypt(t, EncodeText(q.content, q.id).value, r.now, r.restart);
      && wire.Some?
      && SentIds(out + [SendSealed(wire.value), Delivered(q.id)]) == SentIds(out) + [q.id]
  {
    var payload := EncodeText(q.content, q.id).value;
    EncryptNeverExhausts(t, payload, r.now, r.restart);
    TextIdOfText(q.content, q.id);
    var wire := Encrypt(t, payload, r.now, r.restart).1.value;
    assert SentId(SendSealed(wire)) == [q.id];
    SentIdsOfTwo(out, SendSealed(wire), Delivered(q.id));
  }

  lemma SentIdsOfOne(a: Out)
    ensures SentIds([a]) == SentId(a)
  {
    assert [a][..0] == [];
    assert [] + SentId(a) == SentId(a);
  }

  lemma {:induction false} SentIdsOfTwo(out: seq<Out>, a: Out, b: Out)
    ensures SentIds(out + [a, b]) == SentIds(out) + SentId(a) + SentId(b)
  {
    SentIdsOfOne(a);
    SentIdsOfOne(b);
    SentIdsAppend(out, [a]);
    SentIdsAppend(out + [a], [b]);
    assert out + [a, b] == out + [a] + [b];
  }

  /** Neither packet carries a message of ours. */
  lemma SendsNothing(a: Out, b: Out)
    requires SentId(a) == [] && SentId(b) == []
    ensures SentIds([]) == [] && SentIds([a]) == [] && SentIds([a, b]) == []
  {
    SentIdsOfOne(a);
    SentIdsOfTwo([], a, b);
    assert [] + [a, b] == [a, b];
  }

  /** When a handshake completes, all messages still queued and younger than 600 s go out exactly once in queue order,
      if and only if each of them fits; otherwise only those before the first that does not, and the rest is lost. */
  lemma {:induction false} CompletionSendsQueue(p: Peer, payload: bytes, c: Chance, now: real, clock: Clock)
    requires CachesLive(p) && Completes(p, payload, c)
    ensures
      var step := OnHandshake(p, payload, c, now, clock);
      var young := FreshOnly(p.queue, now);
      && SentIds(step.out) == Ids(FittingPrefix(young))
      && step.peer.queue == []
      && (SentIds(step.out) == Ids(young) && !step.raised <==> forall q :: q in young ==> Fits(q))
  {
    var young := FreshOnly(p.queue, now);
    CompletesExactly(p, payload, c, now, clock);
    DrainSends(c.Transport(), young, clock);
    FittingPrefixExactly(young);
    if forall q :: q in young ==> Fits(q) {
      assert |FittingPrefix(young)| == |young|;
    }
  }

  lemma {:induction false} RunNext(guess: bytes -> Parsed, es: seq<Event>, e: Event)
    ensures
      var before := RunOf(guess, STRANGER, es);
      var step := React(guess, before.peer, e);
      RunOf(guess, STRANGER, es + [e]) == Run(step.peer, before.out + step.out)
  {
    WithoutLast(es, e);
  }

  /** Two send commands to a stranger leave both messages in the queue, and msg1 then gets its answer. */
  lemma {:induction false} TwoQueued(
    guess: bytes -> Parsed, a: Queued, b: Queued, msg1: bytes, c: Chance, now: real, clock: Clock)
    requires a.content != [] && b.content != [] && a.time == now == b.time
    requires IsMsg1(msg1) && c.readable && c.writable
    ensures
      var run := RunOf(guess, STRANGER, [Event(SendText(a.content, a.id, true), now, clock),
                                         Event(SendText(b.content, b.id, true), now, clock),
                                         Event(HandshakeIn(msg1, c), now, clock)]);
      && run.peer.queue == [a, b] && run.peer.session == Some(Live(0, SentMsg2(msg1)))
      && CachesLive(run.peer)
      && run.out == [SendAnnounce, SendAnnounce, SendMsg2(Msg2(0, msg1))]
  {
    var e1 := Event(SendText(a.content, a.id, true), now, clock);
    var e2 := Event(SendText(b.content, b.id, true), now, clock);
    var e3 := Event(HandshakeIn(msg1, c), now, clock);
    RunNext(guess, [], e1);
    assert [] + [e1] == [e1] && [e1] + [e2] == [e1, e2] && [e1, e2] + [e3] == [e1, e2, e3];
    RunNext(guess, [e1], e2);
    RunNext(guess, [e1, e2], e3);
    RunsKeepCaches(guess, [e1, e2, e3]);
  }

  /** A message of 256 bytes queued before a short one: the handshake completes, the queue is empty, and neither
      message was transmitted. */
  lemma {:induction false} OversizeLosesQueue(
    guess: bytes -> Parsed, a: Queued, b: Queued, msg1: bytes, msg3: bytes, c: Chance, now: real, clock: Clock)
    requires |a.content| == 256 && 1 <= |b.content| <= 255 && a.time == now == b.time
    requires IsMsg1(msg1) && !IsMsg1(msg3) && c.readable && c.writable
    ensures
      var run := RunOf(guess, STRANGER, [Event(SendText(a.content, a.id, true), now, clock),
                                         Event(SendText(b.content, b.id, true), now, clock),
                                         Event(HandshakeIn(msg1, c), now, clock),
                                         Event(HandshakeIn(msg3, c), now, clock)]);
      run.peer.Established() && run.peer.queue == [] && SentIds(run.out) == []
  {
    var es := [Event(SendText(a.content, a.id, true), now, clock), Event(SendText(b.content, b.id, true), now, clock),
               Event(HandshakeIn(msg1, c), now, clock)];
    var e := Event(HandshakeIn(msg3, c), now, clock);
    TwoQueued(guess, a, b, msg1, c, now, clock);
    RunNext(guess, es, e);
    assert es + [e] == [es[0], es[1], es[2], e];
    var before := RunOf(guess, STRANGER, es);
    TwoLost(Seen(before.peer, e), a, b, msg3, c, now, clock);
    GreetingSendsNothing(Msg2(0, msg1));
    SentIdsAppend(before.out, React(guess, before.peer, e).out);
  }

  lemma TwoLost(p: Peer, a: Queued, b: Queued, msg3: bytes, c: Chance, now: real, clock: Clock)
    requires CachesLive(p) && Completes(p, msg3, c) && p.queue == [a, b] && !Fits(a) && a.time == now == b.time
    ensures
      var step := OnHandshake(p, msg3, c, now, clock);
      step.peer.Established() && step.peer.queue == [] && SentIds(step.out) == []
  {
    CompletesExactly(p, msg3, c, now, clock);
    CompletionSendsQueue(p, msg3, c, now, clock);
    NothingFits(a, b, now);
  }

  lemma {:induction false} GreetingSendsNothing(msg2: Msg2)
    ensures SentIds([SendAnnounce, SendAnnounce, SendMsg2(msg2)]) == []
  {
    SendsNothing(SendAnnounce, SendAnnounce);
    SentIdsNext([SendAnnounce, SendAnnounce], SendMsg2(msg2));
    assert [SendAnnounce, SendAnnounce] + [SendMsg2(msg2)] == [SendAnnounce, SendAnnounce, SendMsg2(msg2)];
  }

  lemma {:induction false} NothingFits(a: Queued, b: Queued, now: real)
    requires !Fits(a) && a.time == now == b.time
    ensures FittingPrefix(FreshOnly([a, b], now)) == []
  {
    FittingPrefixExactly([a, b]);
    assert [a, b][..1] == [a] && [a][..0] == [];
    assert FreshOnly([a], now) == [a] && FreshOnly([a, b], now) == [a, b];
  }

  // ----- Conservation -----

  /** The ids a command hands out. */
  function Commanded(e: Event): seq<bytes> {
    if e.input.SendText? && e.input.content != [] then [e.input.id] else []
  }

  /** What a completed handshake loses of the queue. */
  function LostByDrain(queue: seq<Queued>, now: real): seq<bytes> {
    var young := FreshOnly(queue, now);
    Ids(Stale(queue, now)) + Ids(young[|FittingPrefix(young)|..])
  }

  /** What a step loses: the queue on cancel, LEAVE and timeout, what is stale or does not fit when a handshake
      completes, and a direct send that does not fit. */
  function Dropped(p: Peer, e: Event): seq<bytes> {
    match e.input
    case LeaveIn => Ids(p.queue)
    case Cancel => Ids(p.queue)
    case Sweep(timeout) => if TimedOut(p, e.now, timeout) then Ids(p.queue) else []
    case HandshakeIn(payload, c) =>
      if Completes(p, payload, c) then LostByDrain(p.queue, e.now) else []
    case SendText(content, id, reachable) =>
      if content != [] && p.Established() && reachable && !Fits(Queued(content, id, e.now)) then [id] else []
    case _ => []
  }

  lemma {:induction false} DrainConserves(queue: seq<Queued>, now: real, id: bytes)
    ensures
      Times(Ids(queue), id)
      == Times(Ids(FittingPrefix(FreshOnly(queue, now))), id) + Times(LostByDrain(queue, now), id)
  {
    var young := FreshOnly(queue, now);
    var sent := FittingPrefix(young);
    FreshAndStale(queue, now, id);
    assert young == sent + young[|sent|..];
    IdsAppend(sent, young[|sent|..]);
    TimesAppend(Ids(sent), Ids(young[|sent|..]), id);
    TimesAppend(Ids(Stale(queue, now)), Ids(young[|sent|..]), id);
  }

  /** Outside a completed handshake, handshake messages neither send nor touch the queue. */
  lemma OtherHandshakesSendNothing(p: Peer, payload: bytes, c: Chance, now: real, clock: Clock)
    requires CachesLive(p) && !Completes(p, payload, c)
    ensures
      var step := OnHandshake(p, payload, c, now, clock);
      step.peer.queue == p.queue && SentIds(step.out) == []
  {
  }

  /** Receipts carry no message id of ours. */
  lemma ReceiptsSendNothing(p: Peer, t: Session, id: bytes, clock: Clock)
    requires p.session.Some? && WellKept(t)
    ensures SentIds(SendReceipts(p, t, id, clock).out) == []
  {
    var first := EncodeReceipt(DELIVERY_RECEIPT, id);
    var second := EncodeReceipt(READ_RECEIPT, id);
    EncryptNeverExhausts(t, first, clock(0).now, clock(0).restart);
    var t1 := Encrypt(t, first, clock(0).now, clock(0).restart).0;
    EncryptNeverExhausts(t1, second, clock(1).now, clock(1).restart);
    var out := SendReceipts(p, t, id, clock).out;
    assert out == [out[0], out[1]];
    SendsNothing(out[0], out[1]);
  }

  lemma EncryptedSendsNothing(p: Peer, guess: bytes -> Parsed, wire: Message, now: real, clock: Clock)
    requires CachesLive(p)
    ensures
      var step := OnEncrypted(p, guess, wire, now, clock);
      step.peer.queue == p.queue && SentIds(step.out) == []
  {
    SendsNothing(SendLeave, SendAnnounce);
    if p.Established() {
      forall id
        ensures SentIds(SendReceipts(p.(fails := 0), p.session.value.noise.transport, id, clock).out) == []
      {
        ReceiptsSendNothing(p.(fails := 0), p.session.value.noise.transport, id, clock);
      }
    }
  }

  lemma PayloadSends(p: Peer, payload: Option<bytes>, clock: Clock)
    requires CachesLive(p) && p.Established()
    ensures
      var step := SendPayload(p, payload, clock);
      && step.peer.queue == p.queue
      && SentIds(step.out) ==
         if payload.Some? && TextId(payload.value).Some? then [TextId(payload.value).value] else []
  {
    if payload.Some? {
      EncryptNeverExhausts(p.session.value.noise.transport, payload.value, clock(0).now, clock(0).restart);
      var out := SendPayload(p, payload, clock).out;
      SentIdsOfOne(out[0]);
    }
  }

  predicate Balances(before: Peer, commanded: seq<bytes>, step: Step, dropped: seq<bytes>, id: bytes) {
    Times(Ids(before.queue), id) + Times(commanded, id)
    == Times(Ids(step.peer.queue), id) + Times(SentIds(step.out), id) + Times(dropped, id)
  }

  /** A direct send puts the id on the wire, or raises when the payload does not fit. */
  lemma DirectSend(p: Peer, content: bytes, id: bytes, clock: Clock)
    requires CachesLive(p) && p.Established()
    ensures
      var payload := EncodeText(content, id);
      var step := SendPayload(p, payload, clock);
      step.peer.queue == p.queue && SentIds(step.out) == if payload.Some? then [id] else []
  {
    PayloadSends(p, EncodeText(content, id), clock);
    if EncodeText(content, id).Some? {
      TextIdOfText(content, id);
    }
  }

  function Enqueue(p: Peer, q: Queued, now: real): Step {
    Step(p.(queue := p.queue + [q], announcedAt := Some(now)), [SendAnnounce], false)
  }

  lemma EnqueueBalances(p: Peer, q: Queued, now: real, id: bytes)
    ensures Balances(p, [q.id], Enqueue(p, q, now), [], id)
  {
    SendsNothing(SendAnnounce, SendAnnounce);
    TimesOfLast(p.queue, q, id);
    TimesOfOne(q.id, id);
  }

  lemma QueueingConserves(guess: bytes -> Parsed, p: Peer, e: Event, id: bytes)
    requires e.input.SendText? && e.input.content != []
    requires !p.Established() || !e.input.reachable
    ensures Balances(p, Commanded(e), React(guess, p, e), Dropped(p, e), id)
  {
    var q := Queued(e.input.content, e.input.id, e.now);
    EnqueueBalances(p, q, e.now, id);
    assert React(guess, p, e) == Enqueue(p, q, e.now);
  }

  lemma DirectConserves(guess: bytes -> Parsed, p: Peer, e: Event, id: bytes)
    requires CachesLive(p) && e.input.SendText? && e.input.content != []
    requires p.Established() && e.input.reachable
    ensures Balances(p, Commanded(e), React(guess, p, e), Dropped(p, e), id)
  {
    DirectSend(p, e.input.content, e.input.id, e.clock);
  }

  lemma EmptySendConserves(guess: bytes -> Parsed, p: Peer, e: Event, id: bytes)
    requires e.input.SendText? && e.input.content == []
    ensures Balances(p, Commanded(e), React(guess, p, e), Dropped(p, e), id)
  {
  }

  lemma SendConserves(guess: bytes -> Parsed, p: Peer, e: Event, id: bytes)
    requires CachesLive(p) && e.input.SendText?
    ensures Balances(p, Commanded(e), React(guess, p, e), Dropped(p, e), id)
  {
    if e.input.content == [] {
      EmptySendConserves(guess, p, e, id);
    } else if p.Established() && e.input.reachable {
      DirectConserves(guess, p, e, id);
    } else {
      QueueingConserves(guess, p, e, id);
    }
  }

  lemma EncryptedConserves(guess: bytes -> Parsed, p: Peer, e: Event, id: bytes)
    requires CachesLive(p) && e.input.EncryptedIn?
    ensures Balances(p, Commanded(e), React(guess, p, e), Dropped(p, e), id)
  {
    EncryptedSendsNothing(Seen(p, e), guess, e.input.wire, e.now, e.clock);
  }

  lemma FileSendsNothing(p: Peer, data: bytes, id: bytes, clock: Clock)
    requires CachesLive(p)
    ensures var step := OnSendFile(p, data, id, clock); step.peer.queue == p.queue && SentIds(step.out) == []
  {
    if p.Established() {
      PayloadSends(p, EncodeFile(data, id), clock);
    }
  }

  lemma FileConserves(guess: bytes -> Parsed, p: Peer, e: Event, id: bytes)
    requires CachesLive(p) && e.input.SendFile?
    ensures Balances(p, Commanded(e), React(guess, p, e), Dropped(p, e), id)
  {
    FileSendsNothing(p, e.input.data, e.input.id, e.clock);
  }

  /** No step loses or doubles a message: what was queued or commanded is queued, sent or dropped. */
  lemma EveryStepConserves(guess: bytes -> Parsed, p: Peer, e: Event, id: bytes)
    requires CachesLive(p)
    ensures Balances(p, Commanded(e), React(guess, p, e), Dropped(p, e), id)
  {
    match e.input
    case HandshakeIn(_, _) => HandshakeConserves(guess, p, e, id);
    case EncryptedIn(_) => EncryptedConserves(guess, p, e, id);
    case SendText(_, _, _) => SendConserves(guess, p, e, id);
    case SendFile(_, _) => FileConserves(guess, p, e, id);
    case _ => QuietConserves(guess, p, e, id);
  }

  predicate IsQuiet(input: Input) {
    !input.HandshakeIn? && !input.EncryptedIn? && !input.SendText? && !input.SendFile?
  }

  /** Everything else sends at most an ANNOUNCE, and keeps the queue or drops it whole. */
  lemma QuietStep(guess: bytes -> Parsed, p: Peer, e: Event)
    requires IsQuiet(e.input)
    ensures
      var step := React(guess, p, e);
      && (step.out == [] || step.out == [SendAnnounce]) && Commanded(e) == []
      && (|| (step.peer.queue == p.queue && Dropped(p, e) == [])
          || (step.peer.queue == [] && Dropped(p, e) == Ids(p.queue)))
  {
  }

  lemma QuietConserves(guess: bytes -> Parsed, p: Peer, e: Event, id: bytes)
    requires IsQuiet(e.input)
    ensures Balances(p, Commanded(e), React(guess, p, e), Dropped(p, e), id)
  {
    QuietStep(guess, p, e);
    SendsNothing(SendAnnounce, SendAnnounce);
  }

  lemma HandshakeConserves(guess: bytes -> Parsed, p: Peer, e: Event, id: bytes)
    requires CachesLive(p) && e.input.HandshakeIn?
    ensures Balances(p, Commanded(e), React(guess, p, e), Dropped(p, e), id)
  {
    var q := Seen(p, e);
    if Completes(q, e.input.payload, e.input.chance) {
      CompletionSendsQueue(q, e.input.payload, e.input.chance, e.now, e.clock);
      DrainConserves(p.queue, e.now, id);
    } else {
      OtherHandshakesSendNothing(q, e.input.payload, e.input.chance, e.now, e.clock);
    }
  }

  // ----- Whole runs -----

  function AllCommanded(events: seq<Event>): seq<bytes> {
    if events == [] then [] else AllCommanded(events[..|events| - 1]) + Commanded(events[|events| - 1])
  }

  function AllDropped(guess: bytes -> Parsed, events: seq<Event>): seq<bytes> {
    if events == [] then []
    else
      var n := |events| - 1;
      AllDropped(guess, events[..n]) + Dropped(RunOf(guess, STRANGER, events[..n]).peer, events[n])
  }

  /** Over every run, the ids handed out are those transmitted, those still queued and those dropped, each as often. */
  lemma {:induction false} RunsConserve(guess: bytes -> Parsed, events: seq<Event>, id: bytes)
    ensures
      var run := RunOf(guess, STRANGER, events);
      Times(AllCommanded(events), id)
      == Times(SentIds(run.out), id) + Times(Ids(run.peer.queue), id) + Times(AllDropped(guess, events), id)
  {
    if events != [] {
      var n := |events| - 1;
      var before := RunOf(guess, STRANGER, events[..n]);
      RunsConserve(guess, events[..n], id);
      RunsKeepCaches(guess, events[..n]);
      ExtendRun(guess, before, events[n], AllCommanded(events[..n]), AllDropped(guess, events[..n]), id);
    }
  }

  lemma {:induction false} ExtendRun(
    guess: bytes -> Parsed, before: Run, e: Event, commanded: seq<bytes>, dropped: seq<bytes>, id: bytes)
    requires CachesLive(before.peer)
    requires
      Times(commanded, id) == Times(SentIds(before.out), id) + Times(Ids(before.peer.queue), id) + Times(dropped, id)
    ensures
      var step := React(guess, before.peer, e);
      Times(commanded + Commanded(e), id)
      == Times(SentIds(before.out + step.out), id) + Times(Ids(step.peer.queue), id)
         + Times(dropped + Dropped(before.peer, e), id)
  {
    var step := React(guess, before.peer, e);
    EveryStepConserves(guess, before.peer, e, id);
    SentIdsAppend(before.out, step.out);
    TimesAppend(commanded, Commanded(e), id);
    TimesAppend(SentIds(before.out), SentIds(step.out), id);
    TimesAppend(dropped, Dropped(before.peer, e), id);
  }

  /** With an id that is handed out once, its message is transmitted at most once; if it was cancelled, timed out,
      dropped with a LEAVE or otherwise lost at any step, it is not transmitted at any step, before or after. */
  lemma {:induction false} AtMostOnce(guess: bytes -> Parsed, events: seq<Event>, id: bytes)
    requires Times(AllCommanded(events), id) <= 1
    ensures
      var run := RunOf(guess, STRANGER, events);
      && Times(SentIds(run.out), id) <= 1
      && (id in SentIds(run.out) ==>
            id in AllCommanded(events) && id !in AllDropped(guess, events) && id !in Ids(run.peer.queue))
      && (id in AllCommanded(events) ==>
            id in SentIds(run.out) || id in AllDropped(guess, events) || id in Ids(run.peer.queue))
  {
    var run := RunOf(guess, STRANGER, events);
    RunsConserve(guess, events, id);
    TimesOccurs(AllCommanded(events), id);
    TimesOccurs(SentIds(run.out), id);
    TimesOccurs(Ids(run.peer.queue), id);
    TimesOccurs(AllDropped(guess, events), id);
  }

  // ----- What the other side reads -----

  /** The payloads a receiver reads from what is sent to it. */
  function Reads(receiver: Session, guess: bytes -> Parsed, out: seq<Out>): seq<Parsed> {
    if out == [] then []
    else
      var last := out[|out| - 1];
      Reads(receiver, guess, out[..|out| - 1])
      + if last.SendSealed? && Decrypt(receiver, last.wire).Some?
        then [ParseIncoming(guess, Decrypt(receiver, last.wire).value)] else []
  }

  function Texts(queue: seq<Queued>): seq<Parsed> {
    seq(|queue|, i requires 0 <= i < |queue| => Text(queue[i].id, queue[i].content))
  }

  /** A message as the send command queues it: an id from uuid4 and a text of 1 to 255 bytes. */
  predicate IsMessage(q: Queued) {
    IsUuid(q.id) && IsText(q.content) && 1 <= |q.content| <= 255
  }

  /** The clock stays within an hour of the session's start for the first `n` encryptions. */
  predicate WithinTheHour(t: Session, clock: Clock, n: nat) {
    forall i: nat :: i < n ==> (clock(i).now - t.start) * 1000.0 < NOISE_REKEY_TIME_MS
  }

  lemma NoRekey(t: Session, plaintext: bytes, r: Reading)
    requires WellKept(t) && !RekeyDue(t, r.now)
    ensures Encrypt(t, plaintext, r.now, r.restart).0
         == t.(sendNonce := t.sendNonce + 1, msgCount := t.msgCount + 1)
  {
  }

  /** A phone that has just completed the handshake reads the whole queue, in order, with ids and contents. */
  lemma {:induction false} QueueArrives(
    t: Session, receiver: Session, guess: bytes -> Parsed, queue: seq<Queued>, clock: Clock)
    requires WellKept(t) && receiver.phase == Transport && receiver.recv == t.send
    requires t.msgCount + |queue| <= NOISE_REKEY_MSG_LIMIT_SESSION
    requires WithinTheHour(t, clock, |queue|)
    requires forall q :: q in queue ==> IsMessage(q)
    ensures Reads(receiver, guess, DrainQueue(t, queue, clock).out) == Texts(queue)
    ensures !DrainQueue(t, queue, clock).raised
    ensures DrainQueue(t, queue, clock).transport
         == t.(sendNonce := t.sendNonce + |queue|, msgCount := t.msgCount + |queue|)
  {
    if queue != [] {
      var n := |queue| - 1;
      assert queue == queue[..n] + [queue[n]];
      QueueArrives(t, receiver, guess, queue[..n], clock);
      var before := DrainQueue(t, queue[..n], clock);
      OneArrives(before.transport, receiver, guess, queue[n], before.out, clock(n));
      TextsNext(queue[..n], queue[n]);
    }
  }

  lemma TextsNext(queue: seq<Queued>, q: Queued)
    ensures Texts(queue + [q]) == Texts(queue) + [Text(q.id, q.content)]
  {
  }

  lemma {:induction false} OneArrives(
    t: Session, receiver: Session, guess: bytes -> Parsed, q: Queued, out: seq<Out>, r: Reading)
    requires WellKept(t) && receiver.phase == Transport && receiver.recv == t.send && !RekeyDue(t, r.now)
    requires IsMessage(q)
    ensures EncodeText(q.content, q.id).Some?
    ensures
      var (after, wire) := Encrypt(t, EncodeText(q.content, q.id).value, r.now, r.restart);
      && wire.Some? && after == t.(sendNonce := t.sendNonce + 1, msgCount := t.msgCount + 1)
      && Reads(receiver, guess, out + [SendSealed(wire.value), Delivered(q.id)])
         == Reads(receiver, guess, out) + [Text(q.id, q.content)]
  {
    TextRoundTrip(guess, q.content, q.id);
    var payload := EncodeText(q.content, q.id).value;
    EncryptNeverExhausts(t, payload, r.now, r.restart);
    NoRekey(t, payload, r);
    var wire := Encrypt(t, payload, r.now, r.restart).1.value;
    var both := out + [SendSealed(wire), Delivered(q.id)];
    assert both[..|both| - 1] == out + [SendSealed(wire)];
    assert (out + [SendSealed(wire)])[..|out|] == out;
    assert Decrypt(receiver, wire) == Some(payload);
  }

  /** The sender of a message reads a delivery receipt, then a read receipt, both for its message. */
  lemma {:induction false} ReceiptsArrive(
    p: Peer, t: Session, receiver: Session, guess: bytes -> Parsed, id: bytes, clock: Clock)
    requires p.session.Some? && WellKept(t) && receiver.phase == Transport && receiver.recv == t.send
    requires t.msgCount + 2 <= NOISE_REKEY_MSG_LIMIT_SESSION && WithinTheHour(t, clock, 2)
    requires IsUuid(id)
    ensures
      var out := SendReceipts(p, t, id, clock).out;
      && |out| == 2 && out[0].SendSealed? && out[1].SendSealed?
      && Decrypt(receiver, out[0].wire) == Some(EncodeReceipt(DELIVERY_RECEIPT, id))
      && Decrypt(receiver, out[1].wire) == Some(EncodeReceipt(READ_RECEIPT, id))
      && Reads(receiver, guess, out) == [Receipt(id), Receipt(id)]
  {
    var first := EncodeReceipt(DELIVERY_RECEIPT, id);
    var second := EncodeReceipt(READ_RECEIPT, id);
    EncryptNeverExhausts(t, first, clock(0).now, clock(0).restart);
    NoRekey(t, first, clock(0));
    var t1 := Encrypt(t, first, clock(0).now, clock(0).restart).0;
    EncryptNeverExhausts(t1, second, clock(1).now, clock(1).restart);
    NoRekey(t1, second, clock(1));
    ReceiptRoundTrip(guess, DELIVERY_RECEIPT, id);
    ReceiptRoundTrip(guess, READ_RECEIPT, id);
    var out := SendReceipts(p, t, id, clock).out;
    assert out[..1] == [out[0]] && [out[0]][..0] == [];
    assert Reads(receiver, guess, []) == [];
    assert Reads(receiver, guess, [out[0]]) == [Receipt(id)];
  }
}
