/** Transport messages of crypto/noise_session.py over an ideal AEAD (sections 5.1, 11.3 and 11.4 of the Noise
    Protocol Framework, revision 34). Ciphertexts are symbolic: only the key and nonce that sealed one open it. */
module NoiseTransport {
  import opened Bytes

  const NONCE_SIZE := 4
  const MAC_SIZE := 16
  const NONCE_MAX := 0xFFFF_FFFF
  const NOISE_REKEY_TIME_MS := 3_600_000.0
  const NOISE_REKEY_MSG_LIMIT_SESSION := 10_000

  /** A cipher state's key: the secret of one direction after some number of rekeys. */
  datatype Key = Key(secret: nat, epoch: nat)
  {
    function Rekeyed(): Key {
      Key(secret, epoch + 1)
    }
  }

  datatype Body = Sealed(key: Key, nonce: nat, plaintext: bytes) | Junk(data: bytes)

  /** A wire message: a four-byte nonce and a body, or too few bytes for a nonce. */
  datatype Message = Framed(nonce: nat, body: Body) | Short(data: bytes)
  {
    function Size(): nat {
      match this
      case Short(data) => |data|
      case Framed(_, Sealed(_, _, plaintext)) => NONCE_SIZE + |plaintext| + MAC_SIZE
      case Framed(_, Junk(data)) => NONCE_SIZE + |data|
    }
  }

  /** Opens a body exactly when key and nonce are those that sealed it. */
  function Open(key: Key, nonce: nat, body: Body): Option<bytes> {
    match body
    case Sealed(k, n, plaintext) => if k == key && n == nonce then Some(plaintext) else None
    case Junk(_) => None
  }

  datatype Phase = Handshake | Transport | Failed

  datatype Session = Session(
    phase: Phase, send: Option<Key>, recv: Option<Key>, sendNonce: nat, msgCount: nat, start: real)
  {
    predicate Established() {
      phase == Transport
    }
  }

  /** The session the final handshake message yields. */
  function Split(send: Key, recv: Key, now: real): Session {
    Session(Transport, Some(send), Some(recv), 0, 0, now)
  }

  predicate RekeyDue(s: Session, now: real) {
    (now - s.start) * 1000.0 >= NOISE_REKEY_TIME_MS || s.msgCount >= NOISE_REKEY_MSG_LIMIT_SESSION
  }

  /** _maybe_rekey: both directions advance, on this side only. */
  function MaybeRekey(s: Session, now: real, restart: real): Session {
    if !RekeyDue(s, now) then s
    else
      s.(send := if s.send.Some? then Some(s.send.value.Rekeyed()) else None,
         recv := if s.recv.Some? then Some(s.recv.value.Rekeyed()) else None,
         sendNonce := 0, msgCount := 0, start := restart)
  }

  /** encrypt; `now` and `restart` are the clock readings of the rekey check. */
  function Encrypt(s: Session, plaintext: bytes, now: real, restart: real): (Session, Option<Message>) {
    if s.phase != Transport || s.send.None? || s.sendNonce > NONCE_MAX then (s, None)
    else
      var r := MaybeRekey(s, now, restart);
      (r.(sendNonce := r.sendNonce + 1, msgCount := r.msgCount + 1),
       Some(Framed(r.sendNonce, Sealed(r.send.value, r.sendNonce, plaintext))))
  }

  /** decrypt. */
  function Decrypt(s: Session, m: Message): Option<bytes> {
    if s.phase != Transport || s.recv.None? then None
    else if m.Size() < NONCE_SIZE + MAC_SIZE || m.Short? then None
    else Open(s.recv.value, m.nonce, m.body)
  }

  class NoiseSession {
    var phase: Phase
    var send: Option<Key>
    var recv: Option<Key>
    var sendNonce: nat
    var msgCount: nat
    var start: real

    function State(): Session
      reads this
    {
      Session(phase, send, recv, sendNonce, msgCount, start)
    }

    constructor (now: real)
      ensures State() == Session(Handshake, None, None, 0, 0, now)
    {
      phase, send, recv, sendNonce, msgCount, start := Handshake, None, None, 0, 0, now;
    }

    /** The final handshake message splits the cipher states. */
    method Establish(sendKey: Key, recvKey: Key, now: real)
      requires phase == Handshake && sendNonce == 0 && msgCount == 0
      modifies this
      ensures State() == Split(sendKey, recvKey, now)
    {
      send, recv := Some(sendKey), Some(recvKey);
      phase := Transport;
      start := now;
    }

    method Rekey(now: real, restart: real)
      modifies this
      ensures State() == MaybeRekey(old(State()), now, restart)
    {
      var elapsedMs := (now - start) * 1000.0;
      if elapsedMs >= NOISE_REKEY_TIME_MS || msgCount >= NOISE_REKEY_MSG_LIMIT_SESSION {
        if send.Some? {
          send := Some(send.value.Rekeyed());
        }
        if recv.Some? {
          recv := Some(recv.value.Rekeyed());
        }
        sendNonce := 0;
        msgCount := 0;
        start := restart;
      }
    }

    method EncryptMessage(plaintext: bytes, now: real, restart: real) returns (wire: Option<Message>)
      modifies this
      ensures (State(), wire) == Encrypt(old(State()), plaintext, now, restart)
    {
      if phase != Transport || send.None? {
        return None;
      }
      if sendNonce > NONCE_MAX {
        return None;
      }
      Rekey(now, restart);
      var nonce := sendNonce;
      var body := Sealed(send.value, nonce, plaintext);
      sendNonce := sendNonce + 1;
      msgCount := msgCount + 1;
      wire := Some(Framed(nonce, body));
    }

    method DecryptMessage(m: Message) returns (plaintext: Option<bytes>)
      ensures plaintext == Decrypt(State(), m)
    {
      if phase != Transport || recv.None? {
        return None;
      }
      if m.Size() < NONCE_SIZE + MAC_SIZE {
        return None;
      }
      match m
      case Short(_) => plaintext := None;
      case Framed(nonce, body) => plaintext := Open(recv.value, nonce, body);
    }
  }

  // ----- Nonce discipline -----

  /** An established session counts its messages by its nonce, and rekeys both directions together. */
  predicate WellKept(s: Session) {
    && s.phase == Transport && s.send.Some? && s.recv.Some?
    && s.sendNonce == s.msgCount <= NOISE_REKEY_MSG_LIMIT_SESSION
    && s.send.value.epoch == s.recv.value.epoch
  }

  /** Encrypting on an established session never fails: nonces stay below ten thousand, so they are never exhausted. */
  lemma EncryptNeverExhausts(s: Session, plaintext: bytes, now: real, restart: real)
    requires WellKept(s)
    ensures
      var (after, wire) := Encrypt(s, plaintext, now, restart);
      && WellKept(after) && wire.Some?
      && wire.value.nonce == after.msgCount - 1 < NOISE_REKEY_MSG_LIMIT_SESSION
      && wire.value.body == Sealed(after.send.value, wire.value.nonce, plaintext)
  {
  }

  // ----- Two parties -----

  /** A message one side sent, with that side's rekey count when it did. */
  datatype Sent = Sent(fromA: bool, epoch: nat, plaintext: bytes, wire: Message)

  /** Two sessions that share keys crosswise, and everything sent between them. */
  datatype Pair = Pair(a: Session, b: Session, log: seq<Sent>)
  {
    function Sender(fromA: bool): Session {
      if fromA then a else b
    }

    function Receiver(fromA: bool): Session {
      if fromA then b else a
    }
  }

  datatype Send = Send(fromA: bool, plaintext: bytes, now: real, restart: real)

  function Rekeys(s: Session): nat
    requires s.send.Some?
  {
    s.send.value.epoch
  }

  /** One side encrypts; the other may receive any message of the log, any number of times, in any order. */
  function Exchange(pair: Pair, e: Send): Pair {
    var (after, wire) := Encrypt(pair.Sender(e.fromA), e.plaintext, e.now, e.restart);
    if wire.None? || after.send.None? then pair
    else
      var log := pair.log + [Sent(e.fromA, after.send.value.epoch, e.plaintext, wire.value)];
      if e.fromA then Pair(after, pair.b, log) else Pair(pair.a, after, log)
  }

  function Converse(pair: Pair, es: seq<Send>): Pair {
    if es == [] then pair else Exchange(Converse(pair, es[..|es| - 1]), es[|es| - 1])
  }

  ghost predicate PairOk(pair: Pair, secretA: nat, secretB: nat) {
    && WellKept(pair.a) && WellKept(pair.b)
    && pair.a.send.value.secret == pair.b.recv.value.secret == secretA
    && pair.b.send.value.secret == pair.a.recv.value.secret == secretB
    && (forall i :: 0 <= i < |pair.log| ==> LoggedOk(pair, pair.log[i], secretA, secretB))
    && (forall i, j :: 0 <= i < j < |pair.log| && pair.log[i].fromA == pair.log[j].fromA ==>
          pair.log[i].epoch != pair.log[j].epoch || pair.log[i].wire.nonce != pair.log[j].wire.nonce)
  }

  /** A logged message was sealed under its epoch and a nonce below ten thousand that its sender will not use again. */
  ghost predicate LoggedOk(pair: Pair, m: Sent, secretA: nat, secretB: nat) {
    var sender := pair.Sender(m.fromA);
    && m.wire.Framed?
    && m.wire.body == Sealed(Key(if m.fromA then secretA else secretB, m.epoch), m.wire.nonce, m.plaintext)
    && m.wire.nonce < NOISE_REKEY_MSG_LIMIT_SESSION
    && sender.send.Some?
    && (m.epoch < Rekeys(sender) || (m.epoch == Rekeys(sender) && m.wire.nonce < sender.sendNonce))
  }

  lemma ExchangeKeepsPair(pair: Pair, e: Send, secretA: nat, secretB: nat)
    requires PairOk(pair, secretA, secretB)
    ensures PairOk(Exchange(pair, e), secretA, secretB)
  {
    EncryptNeverExhausts(pair.Sender(e.fromA), e.plaintext, e.now, e.restart);
    var next := Exchange(pair, e);
    forall i | 0 <= i < |next.log|
      ensures LoggedOk(next, next.log[i], secretA, secretB)
    {
      if i < |pair.log| {
        assert LoggedOk(pair, pair.log[i], secretA, secretB);
      }
    }
    forall i, j | 0 <= i < j < |next.log| && next.log[i].fromA == next.log[j].fromA
      ensures next.log[i].epoch != next.log[j].epoch || next.log[i].wire.nonce != next.log[j].wire.nonce
    {
      if j == |pair.log| {
        assert LoggedOk(pair, pair.log[i], secretA, secretB);
      }
    }
  }

  lemma {:induction false} ConverseKeepsPair(pair: Pair, es: seq<Send>, secretA: nat, secretB: nat)
    requires PairOk(pair, secretA, secretB)
    ensures PairOk(Converse(pair, es), secretA, secretB)
  {
    if es != [] {
      ConverseKeepsPair(pair, es[..|es| - 1], secretA, secretB);
      ExchangeKeepsPair(Converse(pair, es[..|es| - 1]), es[|es| - 1], secretA, secretB);
    }
  }

  /** Fresh sessions with crossed keys start such a conversation. */
  function Opening(secretA: nat, secretB: nat, nowA: real, nowB: real): Pair {
    Pair(Split(Key(secretA, 0), Key(secretB, 0), nowA), Split(Key(secretB, 0), Key(secretA, 0), nowB), [])
  }

  /** Over every conversation no side ever seals two messages under the same rekey epoch and nonce, and every nonce
      is below ten thousand. */
  lemma {:induction false} NoncesNeverRepeat(
    secretA: nat, secretB: nat, nowA: real, nowB: real, es: seq<Send>, i: nat, j: nat)
    requires
      var log := Converse(Opening(secretA, secretB, nowA, nowB), es).log;
      i < j < |log| && log[i].fromA == log[j].fromA
    ensures
      var log := Converse(Opening(secretA, secretB, nowA, nowB), es).log;
      && log[i].wire.Framed? && log[j].wire.Framed?
      && (log[i].epoch, log[i].wire.nonce) != (log[j].epoch, log[j].wire.nonce)
      && log[i].wire.nonce < NOISE_REKEY_MSG_LIMIT_SESSION && log[j].wire.nonce < NOISE_REKEY_MSG_LIMIT_SESSION
  {
    var pair := Converse(Opening(secretA, secretB, nowA, nowB), es);
    ConverseKeepsPair(Opening(secretA, secretB, nowA, nowB), es, secretA, secretB);
    assert LoggedOk(pair, pair.log[i], secretA, secretB) && LoggedOk(pair, pair.log[j], secretA, secretB);
  }

  /** A message sent at any time decrypts to its plaintext, in any order and any number of times, exactly as long as
      the receiver has rekeyed as often as the sender had when it encrypted. */
  lemma {:induction false} DecryptsExactlyInEpoch(
    secretA: nat, secretB: nat, nowA: real, nowB: real, es: seq<Send>, i: nat)
    requires i < |Converse(Opening(secretA, secretB, nowA, nowB), es).log|
    ensures
      var pair := Converse(Opening(secretA, secretB, nowA, nowB), es);
      var m := pair.log[i];
      var receiver := pair.Receiver(m.fromA);
      && receiver.send.Some?
      && Decrypt(receiver, m.wire) == if Rekeys(receiver) == m.epoch then Some(m.plaintext) else None
  {
    var pair := Converse(Opening(secretA, secretB, nowA, nowB), es);
    ConverseKeepsPair(Opening(secretA, secretB, nowA, nowB), es, secretA, secretB);
    assert LoggedOk(pair, pair.log[i], secretA, secretB);
  }

  /** Rekeying is local: the message that makes one side rekey is already lost on a peer that was in step with it. */
  lemma RekeyLosesPeer(pair: Pair, e: Send, secretA: nat, secretB: nat)
    requires PairOk(pair, secretA, secretB)
    requires Rekeys(pair.a) == Rekeys(pair.b)
    requires RekeyDue(pair.Sender(e.fromA), e.now)
    ensures
      var next := Exchange(pair, e);
      && |next.log| == |pair.log| + 1
      && Decrypt(next.Receiver(e.fromA), next.log[|pair.log|].wire) == None
  {
    EncryptNeverExhausts(pair.Sender(e.fromA), e.plaintext, e.now, e.restart);
  }
}
