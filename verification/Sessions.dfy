/** One peer as mesh/session_manager.py keeps it: its Noise session, the handshake caches, the queue of pending sends,
    and how each packet, command and timeout changes them. */
module Sessions {
  import opened Bytes
  import opened Packets
  import opened Announcements
  import opened PrivatePayloads
  import opened NoiseTransport

  const ANNOUNCE_COOLDOWN := 10.0
  const PENDING_SEND_TTL := 600.0
  const DECRYPT_FAILURES := 3
  const MSG1_SIZE := 32

  /** A responder's Noise session: waiting for msg1, waiting for msg3 after answering what it heard, or established. */
  datatype Noise = AwaitMsg1 | SentMsg2(heard: bytes) | Ready(transport: Session)

  /** A session object; each one created for a peer has its own number. */
  datatype Live = Live(number: nat, noise: Noise)

  /** A second handshake message: which session wrote it, in answer to what. */
  datatype Msg2 = Msg2(session: nat, heard: bytes)

  datatype Queued = Queued(content: bytes, id: bytes, time: real)

  datatype Peer = Peer(
    session: Option<Live>, msg1: Option<bytes>, msg2: Option<Msg2>, queue: seq<Queued>, fails: nat,
    nick: Option<bytes>, noisePub: Option<bytes>, lastSeen: Option<real>, announcedAt: Option<real>, created: nat)
  {
    predicate Established() {
      session.Some? && session.value.noise.Ready?
    }
  }

  const STRANGER := Peer(None, None, None, [], 0, None, None, None, None, 0)

  datatype Out =
    | SendAnnounce
    | SendLeave
    | SendMsg2(msg2: Msg2)
    | SendSealed(wire: Message)
    | Delivered(id: bytes)

  /** `raised`: an exception left the handler. */
  datatype Step = Step(peer: Peer, out: seq<Out>, raised: bool)

  /** What the Noise library makes of a handshake message: does it read, can it be answered, what the split yields. */
  datatype Chance = Chance(readable: bool, writable: bool, sendSecret: nat, recvSecret: nat, at: real)
  {
    function Transport(): Session {
      Split(Key(sendSecret, 0), Key(recvSecret, 0), at)
    }
  }

  /** The monotonic clock as the i-th encryption of a handler reads it. */
  datatype Reading = Reading(now: real, restart: real)
  type Clock = nat -> Reading

  // ----- Building blocks -----

  /** create_responder. */
  function Respond(p: Peer): Peer {
    p.(session := Some(Live(p.created, AwaitMsg1)), created := p.created + 1)
  }

  function DropCaches(p: Peer): Peer {
    p.(msg1 := None, msg2 := None)
  }

  function Echo(p: Peer, now: real): Step {
    if now - (if p.announcedAt.Some? then p.announcedAt.value else 0.0) >= ANNOUNCE_COOLDOWN
    then Step(p.(announcedAt := Some(now)), [SendAnnounce], false)
    else Step(p, [], false)
  }

  /** LEAVE, a new session, and an ANNOUNCE that ignores the cooldown. */
  function ForceHandshake(p: Peer, now: real): Step {
    Step(Respond(p).(announcedAt := Some(now)), [SendLeave, SendAnnounce], false)
  }

  function WithTransport(p: Peer, t: Session): Peer
    requires p.session.Some?
  {
    p.(session := Some(Live(p.session.value.number, Ready(t))))
  }

  // ----- Pending sends -----

  predicate IsFresh(q: Queued, now: real) {
    now - q.time < PENDING_SEND_TTL
  }

  function FreshOnly(queue: seq<Queued>, now: real): seq<Queued> {
    if queue == [] then []
    else
      var n := |queue| - 1;
      if IsFresh(queue[n], now) then FreshOnly(queue[..n], now) + [queue[n]] else FreshOnly(queue[..n], now)
  }

  datatype Drained = Drained(transport: Session, out: seq<Out>, raised: bool)

  /** Sends the queue in order, up to the first content that does not fit its length byte. */
  function DrainQueue(t: Session, queue: seq<Queued>, clock: Clock): Drained {
    if queue == [] then Drained(t, [], false)
    else
      var n := |queue| - 1;
      var before := DrainQueue(t, queue[..n], clock);
      if before.raised then before
      else
        var payload := EncodeText(queue[n].content, queue[n].id);
        if payload.None? then Drained(before.transport, before.out, true)
        else
          var (after, wire) := Encrypt(before.transport, payload.value, clock(n).now, clock(n).restart);
          Drained(after,
                  before.out + if wire.Some? then [SendSealed(wire.value), Delivered(queue[n].id)] else [],
                  false)
  }

  /** _drain_pending_sends. */
  function Drain(p: Peer, t: Session, now: real, clock: Clock): Step
    requires p.session.Some?
  {
    var d := DrainQueue(t, FreshOnly(p.queue, now), clock);
    Step(WithTransport(p.(queue := []), d.transport), d.out, d.raised)
  }

  // ----- Handlers -----

  function OnAnnounce(p: Peer, ann: Option<Announcement>, now: real): Step {
    if ann.None? then Echo(p, now)
    else
      var changed := p.noisePub.Some? && p.noisePub.value != ann.value.noisePub;
      var reset := if changed then DropCaches(p.(session := None)) else p;
      Echo(reset.(nick := Some(ann.value.nickname), noisePub := Some(ann.value.noisePub)), now)
  }

  predicate IsMsg1(payload: bytes) {
    |payload| == MSG1_SIZE
  }

  /** A msg1 seen before, with the answer still at hand. */
  predicate IsRetry(p: Peer, payload: bytes) {
    IsMsg1(payload) && !p.Established() && p.msg1 == Some(payload) && p.msg2.Some?
  }

  /** The session that will read the message: a new one for a stranger's msg1 or a msg1 on an established session. */
  function ReaderFor(p: Peer, payload: bytes): Peer
    requires p.session.Some? || IsMsg1(payload)
  {
    if p.session.None? then Respond(p)
    else if p.Established() && IsMsg1(payload) then DropCaches(Respond(p))
    else p
  }

  /** A msg1 other than the one just answered starts the handshake again. */
  function Restarted(p: Peer, payload: bytes): Peer
    requires p.session.Some?
  {
    if IsMsg1(payload) && !p.Established() && (p.msg1.Some? || p.msg2.Some?) then DropCaches(Respond(p)) else p
  }

  /** read_handshake_message, and write_handshake_message for a msg2. */
  function ReadHandshake(p: Peer, payload: bytes, c: Chance, now: real, clock: Clock): Step
    requires p.session.Some?
  {
    var number, noise := p.session.value.number, p.session.value.noise;
    if !c.readable || noise.Ready? then Step(DropCaches(p.(session := None)), [], false)
    else if noise.SentMsg2? then
      Drain(DropCaches(p), c.Transport(), now, clock)
    else if !c.writable then Step(DropCaches(p.(session := None)), [], false)
    else
      var msg2 := Msg2(number, payload);
      Step(p.(session := Some(Live(number, SentMsg2(payload))), msg2 := Some(msg2),
              msg1 := if IsMsg1(payload) then Some(payload) else p.msg1),
           [SendMsg2(msg2)], false)
  }

  function OnHandshake(p: Peer, payload: bytes, c: Chance, now: real, clock: Clock): Step {
    if p.session.None? && !IsMsg1(payload) then Step(p, [], false)
    else
      var reader := ReaderFor(p, payload);
      if IsRetry(reader, payload) then Step(reader, [SendMsg2(reader.msg2.value)], false)
      else ReadHandshake(Restarted(reader, payload), payload, c, now, clock)
  }

  /** A delivery and a read receipt for message `id`. */
  function SendReceipts(p: Peer, t: Session, id: bytes, clock: Clock): Step
    requires p.session.Some?
  {
    var (t1, first) := Encrypt(t, EncodeReceipt(DELIVERY_RECEIPT, id), clock(0).now, clock(0).restart);
    var (t2, second) := Encrypt(t1, EncodeReceipt(READ_RECEIPT, id), clock(1).now, clock(1).restart);
    Step(WithTransport(p, t2),
         (if first.Some? then [SendSealed(first.value)] else [])
         + (if second.Some? then [SendSealed(second.value)] else []),
         false)
  }

  function OnEncrypted(p: Peer, guess: bytes -> Parsed, wire: Message, now: real, clock: Clock): Step {
    if !p.Established() then ForceHandshake(p, now)
    else
      var t := p.session.value.noise.transport;
      match Decrypt(t, wire)
      case None =>
        if p.fails + 1 < DECRYPT_FAILURES then Step(p.(fails := p.fails + 1), [], false)
        else ForceHandshake(p.(fails := 0), now)
      case Some(plaintext) =>
        match ParseIncoming(guess, plaintext)
        case Receipt(_) => Step(p.(fails := 0), [], false)
        case Unknown => Step(p.(fails := 0), [], false)
        case Text(id, _) => SendReceipts(p.(fails := 0), t, id, clock)
        case File(id, _) => SendReceipts(p.(fails := 0), t, id, clock)
  }

  /** LEAVE. */
  function OnLeave(p: Peer): Peer {
    DropCaches(p.(session := None)).(nick := None, noisePub := None, announcedAt := None, queue := [])
  }

  /** The timeout sweep: known peers that have been silent too long. */
  predicate TimedOut(p: Peer, now: real, timeout: real) {
    p.lastSeen.Some? && p.nick.Some? && now - p.lastSeen.value > timeout
  }

  function OnTimeout(p: Peer): Peer {
    OnLeave(p).(lastSeen := None)
  }

  function OnSend(p: Peer, content: bytes, id: bytes, reachable: bool, now: real, clock: Clock): Step {
    if content == [] then Step(p, [], false)
    else if !p.Established() || !reachable then
      Step(p.(queue := p.queue + [Queued(content, id, now)], announcedAt := Some(now)), [SendAnnounce], false)
    else
      SendPayload(p, EncodeText(content, id), clock)
  }

  /** Encrypts and sends one payload; a payload that could not be packed raised. */
  function SendPayload(p: Peer, payload: Option<bytes>, clock: Clock): Step
    requires p.Established()
  {
    if payload.None? then Step(p, [], true)
    else
      var (t, wire) := Encrypt(p.session.value.noise.transport, payload.value, clock(0).now, clock(0).restart);
      Step(WithTransport(p, t), if wire.Some? then [SendSealed(wire.value)] else [], false)
  }

  function OnSendFile(p: Peer, data: bytes, id: bytes, clock: Clock): Step {
    if !p.Established() then Step(p, [], false) else SendPayload(p, EncodeFile(data, id), clock)
  }

  // ----- Packets -----

  /** How payloads are read: nicknames with replacement characters, symbolic ciphertexts, formats that are guessed. */
  datatype Readers = Readers(lossy: bytes -> bytes, seal: bytes -> Message, guess: bytes -> Parsed)

  /** handle_packet's choice of handler, by the type byte. */
  function InputOf(readers: Readers, p: Packet, chance: Chance): (input: Input)
    ensures input.IsPacket()
  {
    if p.packetType == ANNOUNCE then AnnounceIn(DecodeAnnounce(readers.lossy, p.payload))
    else if p.packetType == NOISE_HANDSHAKE then HandshakeIn(p.payload, chance)
    else if p.packetType == NOISE_ENCRYPTED then EncryptedIn(readers.seal(p.payload))
    else if p.packetType == LEAVE then LeaveIn
    else if p.packetType == REQUEST_SYNC then SyncIn
    else OtherIn
  }

  // ----- Runs -----

  datatype Input =
    | AnnounceIn(ann: Option<Announcement>)
    | HandshakeIn(payload: bytes, chance: Chance)
    | EncryptedIn(wire: Message)
    | SyncIn
    | LeaveIn
    | OtherIn
    | Sweep(timeout: real)
    | SendText(content: bytes, id: bytes, reachable: bool)
    | SendFile(data: bytes, id: bytes)
    | Cancel
    | ClearCooldown
  {
    predicate IsPacket() {
      AnnounceIn? || HandshakeIn? || EncryptedIn? || SyncIn? || LeaveIn? || OtherIn?
    }
  }

  datatype Event = Event(input: Input, now: real, clock: Clock)

  function Seen(p: Peer, e: Event): Peer {
    if e.input.IsPacket() then p.(lastSeen := Some(e.now)) else p
  }

  /** Whatever can happen to one peer. */
  function React(guess: bytes -> Parsed, before: Peer, e: Event): Step {
    var p := Seen(before, e);
    match e.input
    case AnnounceIn(ann) => OnAnnounce(p, ann, e.now)
    case HandshakeIn(payload, chance) => OnHandshake(p, payload, chance, e.now, e.clock)
    case EncryptedIn(wire) => OnEncrypted(p, guess, wire, e.now, e.clock)
    case SyncIn => Echo(p, e.now)
    case LeaveIn => Step(OnLeave(p), [], false)
    case OtherIn => Step(p, [], false)
    case Sweep(timeout) => Step(if TimedOut(p, e.now, timeout) then OnTimeout(p) else p, [], false)
    case SendText(content, id, reachable) => OnSend(p, content, id, reachable, e.now, e.clock)
    case SendFile(data, id) => OnSendFile(p, data, id, e.clock)
    case Cancel => Step(p.(queue := []), [], false)
    case ClearCooldown => Step(p.(announcedAt := None), [], false)
  }

  /** The peer after a run, and everything sent to it. */
  datatype Run = Run(peer: Peer, out: seq<Out>)

  function RunOf(guess: bytes -> Parsed, start: Peer, events: seq<Event>): Run {
    if events == [] then Run(start, [])
    else
      var n := |events| - 1;
      var before := RunOf(guess, start, events[..n]);
      var step := React(guess, before.peer, events[n]);
      Run(step.peer, before.out + step.out)
  }
}
