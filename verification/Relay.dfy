/** The relay decision of mesh/relay_engine.py and the duplicate filter of daemon.py. */
module Relay {
  import opened Bytes
  import opened Packets
  import opened Codec
  import opened CodecTheorems
  import opened Fragmentation
  import opened SeenCaches

  const RELAY_LIMITS: Limits := Limits(300_000, 10_000)
  const DISPATCH_LIMITS: Limits := Limits(10_000, 1_000)

  const RELAY_HIGH_TTL_THRESHOLD := 4
  const RELAY_SMALL_NET_MAX := 3

  // ----- Keys -----

  /** _packet_key: stable across hops. */
  function RelayKey(p: Packet): bytes
    requires FromWire(p)
  {
    p.sender + [p.packetType] + BigEndian(p.timestamp, 8)
  }

  lemma RelayKeyIdentifies(p: Packet, q: Packet)
    requires FromWire(p) && FromWire(q)
    ensures RelayKey(p) == RelayKey(q)
       <==> p.sender == q.sender && p.packetType == q.packetType && p.timestamp == q.timestamp
  {
    if RelayKey(p) == RelayKey(q) {
      assert p.sender == RelayKey(p)[..8] && q.sender == RelayKey(q)[..8];
      assert RelayKey(p)[8] == p.packetType && RelayKey(q)[8] == q.packetType;
      assert BigEndian(p.timestamp, 8) == RelayKey(p)[9..] && BigEndian(q.timestamp, 8) == RelayKey(q)[9..];
      BigEndianRoundTrip(p.timestamp, 8);
      BigEndianRoundTrip(q.timestamp, 8);
    }
  }

  /** _dispatch_dedup_key: Noise packets are told apart by their payload. */
  function DispatchKey(p: Packet): bytes
    requires FromWire(p)
  {
    if p.packetType == NOISE_ENCRYPTED || p.packetType == NOISE_HANDSHAKE then p.sender + [p.packetType] + p.payload
    else p.sender + [p.packetType] + BigEndian(p.timestamp, 8)
  }

  // ----- Source routes -----

  predicate HasDuplicates(route: seq<bytes>) {
    exists i, j :: 0 <= i < j < |route| && route[i] == route[j]
  }

  /** _has_duplicate_hops. */
  method HasDuplicateHops(route: seq<bytes>) returns (duplicate: bool)
    ensures duplicate <==> HasDuplicates(route)
  {
    var seen: set<bytes> := {};
    for i := 0 to |route|
      invariant seen == set j | 0 <= j < i :: route[j]
      invariant forall j, k :: 0 <= j < k < i ==> route[j] != route[k]
    {
      var h := route[i];
      if h in seen {
        return true;
      }
      seen := seen + {h};
    }
    duplicate := false;
  }

  function WireId(me: bytes): bytes {
    if |me| > PEER_ID_SIZE then me[..PEER_ID_SIZE] else me
  }

  /** _find_self_in_route: the first position, or -1. */
  function FindSelf(route: seq<bytes>, me: bytes): (i: int)
    ensures -1 <= i < |route|
    ensures i >= 0 ==> route[i] == WireId(me)
    ensures i < 0 ==> WireId(me) !in route
  {
    if route == [] then -1
    else if route[0] == WireId(me) then 0
    else
      var later := FindSelf(route[1..], me);
      if later < 0 then -1 else later + 1
  }

  method FindSelfInRoute(route: seq<bytes>, me: bytes) returns (index: int)
    ensures index == FindSelf(route, me)
  {
    for i := 0 to |route|
      invariant FindSelf(route, me) ==
                if FindSelf(route[i..], me) < 0 then -1 else i + FindSelf(route[i..], me)
    {
      assert route[i..][0] == route[i] && route[i..][1..] == route[i + 1..];
      if route[i] == WireId(me) {
        return i;
      }
    }
    index := -1;
  }

  /** _next_hop: the hop after `index`, the recipient after the last one. */
  function NextHop(p: Packet, index: nat): Option<bytes> {
    if p.route.None? then None
    else if index + 1 < |p.route.value| then Some(p.route.value[index + 1])
    else if p.recipient.Some? && p.recipient.value != [] then p.recipient
    else None
  }

  // ----- The relay decision -----

  /** _should_relay: certain for a high TTL or a small network, otherwise a draw from [0, 1). */
  function ShouldRelay(ttl: nat, networkSize: nat, draw: real): bool {
    if ttl >= RELAY_HIGH_TTL_THRESHOLD then true
    else if networkSize <= RELAY_SMALL_NET_MAX then true
    else
      draw < (if networkSize <= 10 then 1.0
              else if networkSize <= 30 then 0.85
              else if networkSize <= 50 then 0.7
              else if networkSize <= 100 then 0.55
              else 0.4)
  }

  /** What handle_relay reads from outside: two clock readings, the callbacks and how a unicast fares, the draw. */
  datatype Surroundings = Surroundings(
    lookAt: int, markAt: int, canUnicast: bool, unicastArrives: bool, canBroadcast: bool, networkSize: nat, draw: real)

  /** What leaves the node; a unicast that fails leaves nothing. */
  datatype Action = Silent | ToPeer(peer: bytes, sent: Packet) | ToAll(sent: Packet)

  /** The routing choice for a packet whose TTL is already lowered. */
  function Forward(me: bytes, p: Packet, around: Surroundings): Action {
    var index := if p.HasRoute() then FindSelf(p.route.value, me) else -1;
    if p.HasRoute() && HasDuplicates(p.route.value) then Silent
    else if index >= 0 && NextHop(p, index).Some? && around.canUnicast && around.unicastArrives
    then ToPeer(NextHop(p, index).value, p)
    else if ShouldRelay(p.ttl, around.networkSize, around.draw) && around.canBroadcast then ToAll(p)
    else Silent
  }

  /** handle_relay: the duplicate cache afterwards, and what was sent. */
  function HandleRelay(seen: seq<Entry<bytes>>, me: bytes, p: Packet, from: bytes, around: Surroundings)
    : (seq<Entry<bytes>>, Action)
    requires FromWire(p)
  {
    if from == me || p.ttl == 0 then (seen, Silent)
    else
      var key := RelayKey(p);
      var (duplicate, looked) := Look(seen, key, around.lookAt, RELAY_LIMITS);
      if duplicate then (looked, Silent)
      else (Mark(looked, key, around.markAt, RELAY_LIMITS), Forward(me, p.WithTtl(p.ttl - 1), around))
  }

  class RelayEngine {
    const me: bytes
    const seen: SeenCache<bytes>

    constructor (me: bytes)
      ensures this.me == me && fresh(seen) && seen.limits == RELAY_LIMITS && seen.entries == []
    {
      this.me := me;
      seen := new SeenCache(RELAY_LIMITS);
    }

    method Handle(p: Packet, from: bytes, around: Surroundings) returns (action: Action)
      requires FromWire(p) && seen.limits == RELAY_LIMITS
      modifies seen
      ensures (seen.entries, action) == HandleRelay(old(seen.entries), me, p, from, around)
    {
      if from == me {
        return Silent;
      }
      if p.ttl == 0 {
        return Silent;
      }
      var relayed := p.WithTtl(p.ttl - 1);
      assert RelayKey(relayed) == RelayKey(p);
      var duplicate := seen.Admit(RelayKey(relayed), around.lookAt, around.markAt);
      if duplicate {
        return Silent;
      }
      if relayed.HasRoute() {
        var repeated := HasDuplicateHops(relayed.route.value);
        if repeated {
          return Silent;
        }
        var index := FindSelfInRoute(relayed.route.value, me);
        if index >= 0 {
          var next := NextHop(relayed, index);
          if next.Some? && around.canUnicast {
            if around.unicastArrives {
              return ToPeer(next.value, relayed);
            }
          }
        }
      }
      if ShouldRelay(relayed.ttl, around.networkSize, around.draw) {
        if around.canBroadcast {
          return ToAll(relayed);
        }
      }
      action := Silent;
    }
  }

  /** _is_dispatch_duplicate; fragments are exempt. */
  function Filter(seen: seq<Entry<bytes>>, p: Packet, now: int): (bool, seq<Entry<bytes>>)
    requires FromWire(p)
  {
    if p.packetType == FRAGMENT then (false, seen)
    else
      var (duplicate, looked) := Look(seen, DispatchKey(p), now, DISPATCH_LIMITS);
      (duplicate, if duplicate then looked else Mark(looked, DispatchKey(p), now, DISPATCH_LIMITS))
  }

  method IsDispatchDuplicate(seen: SeenCache<bytes>, p: Packet, now: int) returns (duplicate: bool)
    requires FromWire(p) && seen.limits == DISPATCH_LIMITS
    modifies seen
    ensures (duplicate, seen.entries) == Filter(old(seen.entries), p, now)
  {
    if p.packetType == FRAGMENT {
      return false;
    }
    duplicate := seen.Admit(DispatchKey(p), now, now);
  }

  // ----- Properties -----

  /** A relayed packet is the received one with its TTL one lower; own packets and TTL 0 are never relayed. */
  lemma RelayLowersTtl(seen: seq<Entry<bytes>>, me: bytes, p: Packet, from: bytes, around: Surroundings)
    requires FromWire(p)
    ensures
      var action := HandleRelay(seen, me, p, from, around).1;
      !action.Silent? ==> from != me && p.ttl > 0 && action.sent == p.WithTtl(p.ttl - 1)
  {
  }

  // ----- Fragments of one packet share a key -----

  /** One call of handle_relay. */
  datatype Call = Call(packet: Packet, from: bytes, around: Surroundings)

  /** The calls of a relay's life: packets off the wire, clock readings that never go back. */
  predicate AreCalls(calls: seq<Call>) {
    && (forall i :: 0 <= i < |calls| ==>
          FromWire(calls[i].packet) && calls[i].around.lookAt <= calls[i].around.markAt)
    && (forall i, j :: 0 <= i < j < |calls| ==> calls[i].around.markAt <= calls[j].around.lookAt)
  }

  /** The duplicate cache, and every mark ever made in it. */
  datatype Life = Life(seen: seq<Entry<bytes>>, marks: seq<Entry<bytes>>)

  function LifeOf(me: bytes, calls: seq<Call>): Life
    requires AreCalls(calls)
  {
    if calls == [] then Life([], [])
    else
      var n := |calls| - 1;
      var before := LifeOf(me, calls[..n]);
      var c := calls[n];
      var admitted := c.from != me && c.packet.ttl > 0
                      && !Look(before.seen, RelayKey(c.packet), c.around.lookAt, RELAY_LIMITS).0;
      Life(HandleRelay(before.seen, me, c.packet, c.from, c.around).0,
           if admitted then before.marks + [Entry(RelayKey(c.packet), c.around.markAt)] else before.marks)
  }

  /** The cache stands for the marks, at any time from the last call on. */
  lemma {:induction false} LifeKeepsMarks(me: bytes, calls: seq<Call>, now: int)
    requires AreCalls(calls) && (calls != [] ==> calls[|calls| - 1].around.markAt <= now)
    ensures Represents(LifeOf(me, calls).seen, LifeOf(me, calls).marks, now, RELAY_LIMITS)
  {
    if calls != [] {
      var n := |calls| - 1;
      var before := LifeOf(me, calls[..n]);
      var c := calls[n];
      LifeKeepsMarks(me, calls[..n], c.around.lookAt);
      if c.from == me || c.packet.ttl == 0 {
        RepresentsLater(before.seen, before.marks, c.around.lookAt, now, RELAY_LIMITS);
      } else {
        var probe := Probe(RelayKey(c.packet), c.around.lookAt, c.around.markAt);
        ProbeKeepsLog(before.seen, before.marks, probe, c.around.lookAt, RELAY_LIMITS);
        RepresentsLater(LifeOf(me, calls).seen, LifeOf(me, calls).marks, c.around.markAt, now, RELAY_LIMITS);
      }
    }
  }

  /** A packet with TTL left that is not the relay's own is dropped without a trace exactly when its key was seen;
      otherwise it is marked. */
  lemma DroppedExactly(seen: seq<Entry<bytes>>, me: bytes, p: Packet, from: bytes, around: Surroundings)
    requires FromWire(p) && from != me && p.ttl > 0 && DistinctKeys(seen)
    requires around.lookAt <= around.markAt
    ensures HandleRelay(seen, me, p, from, around) == (seen, Silent)
       <==> Look(seen, RelayKey(p), around.lookAt, RELAY_LIMITS).0
  {
    var key := RelayKey(p);
    var (duplicate, looked) := Look(seen, key, around.lookAt, RELAY_LIMITS);
    if !duplicate {
      var after := Mark(looked, key, around.markAt, RELAY_LIMITS);
      assert after[|after| - 1] == Entry(key, around.markAt);
      assert |seen| > 0 && seen[|seen| - 1] == Entry(key, around.markAt) ==> Position(seen, key) == |seen| - 1;
    }
  }

  /** Is `q`, as received, the fragment of `p` that carries `x`? Its TTL and flags byte are those of its journey. */
  predicate IsFragmentOf(q: Packet, p: Packet, x: Piece)
    requires Packable(x)
  {
    && q.packetType == FRAGMENT && q.sender == PadPeerId(p.sender) && q.timestamp == p.timestamp
    && q.payload == EncodePiece(x)
  }

  lemma FragmentsShareKey(a: Packet, b: Packet, p: Packet, x: Piece, y: Piece)
    requires FromWire(a) && FromWire(b) && Packable(x) && Packable(y)
    requires IsFragmentOf(a, p, x) && IsFragmentOf(b, p, y)
    ensures RelayKey(a) == RelayKey(b)
  {
  }

  /** At any point of a relay's life, a fragment of a packet, addressed or not, routed or not, is dropped if and only if
      the last mark of the key that it shares with every fragment of that packet is younger than 300 s and fewer than
      10,000 marks followed it. */
  lemma {:induction false} FragmentDroppedExactly(
    me: bytes, calls: seq<Call>, n: nat, p: Packet, a: Packet, x: Piece, y: Piece)
    requires AreCalls(calls) && n < |calls|
    requires Packable(x) && Packable(y) && FromWire(a)
    requires IsFragmentOf(a, p, x) && IsFragmentOf(calls[n].packet, p, y)
    requires calls[n].from != me && calls[n].packet.ttl > 0
    ensures RelayKey(a) == RelayKey(calls[n].packet)
    ensures
      var life := LifeOf(me, calls[..n]);
      var last := LastMark(life.marks, RelayKey(a));
      HandleRelay(life.seen, me, calls[n].packet, calls[n].from, calls[n].around) == (life.seen, Silent)
      <==> && last >= 0 && calls[n].around.lookAt - life.marks[last].time < 300_000
           && |life.marks| - 1 - last < 10_000
  {
    var c := calls[n];
    var life := LifeOf(me, calls[..n]);
    FragmentsShareKey(a, c.packet, p, x, y);
    LifeKeepsMarks(me, calls[..n], c.around.lookAt);
    LookAnswersLog(life.seen, life.marks, RelayKey(c.packet), c.around.lookAt, RELAY_LIMITS);
    DroppedExactly(life.seen, me, c.packet, c.from, c.around);
  }

  /** So right after one fragment is admitted, the next one within 300 s is dropped, whatever its TTL. */
  lemma NextFragmentDropped(
    seen: seq<Entry<bytes>>, me: bytes, p: Packet, a: Packet, b: Packet, x: Piece, y: Piece,
    fromA: bytes, fromB: bytes, first: Surroundings, second: Surroundings)
    requires FromWire(a) && FromWire(b) && Packable(x) && Packable(y)
    requires IsFragmentOf(a, p, x) && IsFragmentOf(b, p, y) && DistinctKeys(seen)
    requires fromA != me && a.ttl > 0
    requires !Look(seen, RelayKey(a), first.lookAt, RELAY_LIMITS).0
    requires second.lookAt - first.markAt < RELAY_LIMITS.window
    ensures
      var after := HandleRelay(seen, me, a, fromA, first).0;
      HandleRelay(after, me, b, fromB, second) == (after, Silent)
  {
    var key := RelayKey(a);
    FragmentsShareKey(a, b, p, x, y);
    var looked := Look(seen, key, first.lookAt, RELAY_LIMITS).1;
    DeleteDropsOne(seen, key);
    MarkedIsSeen(looked, key, first.markAt, second.lookAt, RELAY_LIMITS);
  }

  lemma MarkedIsSeen(d: seq<Entry<bytes>>, key: bytes, markAt: int, lookAt: int, limits: Limits)
    requires limits.capacity > 0 && lookAt - markAt < limits.window
    requires DistinctKeys(d)
    ensures Look(Mark(d, key, markAt, limits), key, lookAt, limits) == (true, Mark(d, key, markAt, limits))
  {
    DeleteDropsOne(d, key);
    var after := Mark(d, key, markAt, limits);
    assert after[|after| - 1] == Entry(key, markAt);
    var p := Position(after, key);
    assert p <= |after| - 1;
  }
}
