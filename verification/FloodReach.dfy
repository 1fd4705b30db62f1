/** When a packet is relayed, exactly; and that a flood reaches as far as its TTL. */
module FloodReach {
  import opened Bytes
  import opened Packets
  import opened Seqs
  import opened CodecTheorems
  import opened SeenCaches
  import opened Relay
  import opened Network

  // ----- One node -----

  /** The packet is somebody else's, has TTL left, and its key was not seen. */
  predicate Admitted(seen: seq<Entry<bytes>>, me: bytes, p: Packet, from: bytes, around: Surroundings)
    requires FromWire(p)
  {
    from != me && p.ttl > 0 && !Look(seen, RelayKey(p), around.lookAt, RELAY_LIMITS).0
  }

  /** No hop occurs twice. */
  predicate RouteAccepted(p: Packet) {
    p.HasRoute() ==>
      forall i, j :: 0 <= i < j < |p.route.value| ==> p.route.value[i] != p.route.value[j]
  }

  /** The next hop that gets the packet by unicast: the hop after this node's own, or the recipient after the last. */
  function UnicastTo(me: bytes, p: Packet, around: Surroundings): Option<bytes> {
    if !p.HasRoute() || FindSelf(p.route.value, me) < 0 || !around.canUnicast || !around.unicastArrives then None
    else if FindSelf(p.route.value, me) < |p.route.value| - 1 then Some(p.route.value[FindSelf(p.route.value, me) + 1])
    else if p.recipient == Some([]) then None
    else p.recipient
  }

  /** A node finds itself at the first hop that agrees with its id, of which eight bytes count. */
  lemma {:induction false} FindSelfExactly(route: seq<bytes>, me: bytes, i: nat)
    requires i < |route|
    ensures FindSelf(route, me) == i
       <==> && route[i] == (if |me| >= 8 then me[..8] else me)
            && forall j :: 0 <= j < i ==> route[j] != if |me| >= 8 then me[..8] else me
  {
    if i > 0 {
      FindSelfExactly(route[1..], me, i - 1);
      assert forall j :: 0 <= j < i ==> route[j] == if j == 0 then route[0] else route[1..][j - 1];
    }
  }

  /** A draw from [0, 1) against the odds: certain with TTL 4 or more left or up to ten peers, then 85, 70, 55 and 40
      percent for up to 30, 50, 100 and more. */
  predicate Lucky(ttl: nat, networkSize: nat, draw: real) {
    || ttl >= 4 || networkSize <= 10
    || draw < if networkSize <= 30 then 0.85 else if networkSize <= 50 then 0.7 else if networkSize <= 100 then 0.55
              else 0.4
  }

  /** An admitted packet on an accepted route goes to the next hop by unicast if that works, and otherwise to all if the
      draw succeeds and broadcasting is possible, each time with the TTL one lower; nothing else is ever sent. */
  lemma ActsExactly(seen: seq<Entry<bytes>>, me: bytes, p: Packet, from: bytes, around: Surroundings)
    requires FromWire(p) && 0.0 <= around.draw < 1.0
    ensures
      var action := HandleRelay(seen, me, p, from, around).1;
      action ==
      if !Admitted(seen, me, p, from, around) || !RouteAccepted(p) then Silent
      else if UnicastTo(me, p, around).Some? then ToPeer(UnicastTo(me, p, around).value, p.WithTtl(p.ttl - 1))
      else if Lucky(p.ttl - 1, around.networkSize, around.draw) && around.canBroadcast then ToAll(p.WithTtl(p.ttl - 1))
      else Silent
  {
    if p.ttl > 0 {
      assert NextHop(p.WithTtl(p.ttl - 1), 0) == NextHop(p, 0);
    }
  }

  /** Dispatching relays what the filter lets through, unless it is this node's own or addressed to this node alone;
      a node's own packets leave no trace. */
  lemma DispatchActsExactly(node: Node, me: bytes, p: Packet, now: int, around: Surroundings)
    requires FromWire(p)
    ensures
      Dispatch(node, me, p, now, around).action ==
      if p.sender == me || Filter(node.dispatch, p, now).0
         || (p.recipient == Some(me) && (p.packetType == 0x20 || me != Repeat(0xFF, 8))) then Silent
      else HandleRelay(node.relay, me, p, p.sender, around).1
    ensures p.sender == me ==> Dispatch(node, me, p, now, around).node == node
  {
  }

  // ----- Keys -----

  /** Two packets are duplicates for the dispatch filter exactly when sender and type agree and, for Noise packets, the
      payload, for all others the timestamp. */
  lemma DispatchKeyIdentifies(p: Packet, q: Packet)
    requires FromWire(p) && FromWire(q)
    ensures DispatchKey(p) == DispatchKey(q)
       <==> && p.sender == q.sender && p.packetType == q.packetType
            && if p.packetType in {0x10, 0x11} then p.payload == q.payload else p.timestamp == q.timestamp
  {
    SenderAndType(p);
    SenderAndType(q);
    BigEndianRoundTrip(p.timestamp, 8);
    BigEndianRoundTrip(q.timestamp, 8);
    if DispatchKey(p) == DispatchKey(q) {
      assert DispatchKey(p)[9..] == DispatchKey(q)[9..];
    }
  }

  lemma SenderAndType(p: Packet)
    requires FromWire(p)
    ensures |DispatchKey(p)| >= 9 && DispatchKey(p)[..8] == p.sender && DispatchKey(p)[8] == p.packetType
    ensures DispatchKey(p)[9..] == if p.packetType in {0x10, 0x11} then p.payload else BigEndian(p.timestamp, 8)
  {
  }

  // ----- The dispatch filter over a node's life -----

  /** A packet as the filter meets it. */
  datatype Arrival = Arrival(packet: Packet, now: int)

  predicate AreArrivals(arrivals: seq<Arrival>) {
    && (forall i :: 0 <= i < |arrivals| ==> FromWire(arrivals[i].packet))
    && (forall i, j :: 0 <= i < j < |arrivals| ==> arrivals[i].now <= arrivals[j].now)
  }

  function FilterLife(arrivals: seq<Arrival>): Life
    requires AreArrivals(arrivals)
  {
    if arrivals == [] then Life([], [])
    else
      var n := |arrivals| - 1;
      var before := FilterLife(arrivals[..n]);
      var a := arrivals[n];
      var (duplicate, after) := Filter(before.seen, a.packet, a.now);
      Life(after,
           if duplicate || a.packet.packetType == FRAGMENT then before.marks
           else before.marks + [Entry(DispatchKey(a.packet), a.now)])
  }

  lemma {:induction false} FilterKeepsMarks(arrivals: seq<Arrival>, now: int)
    requires AreArrivals(arrivals) && (arrivals != [] ==> arrivals[|arrivals| - 1].now <= now)
    ensures Represents(FilterLife(arrivals).seen, FilterLife(arrivals).marks, now, DISPATCH_LIMITS)
  {
    if arrivals != [] {
      var n := |arrivals| - 1;
      var before := FilterLife(arrivals[..n]);
      var a := arrivals[n];
      FilterKeepsMarks(arrivals[..n], a.now);
      if a.packet.packetType != FRAGMENT {
        ProbeKeepsLog(before.seen, before.marks, Probe(DispatchKey(a.packet), a.now, a.now), a.now, DISPATCH_LIMITS);
      }
      RepresentsLater(FilterLife(arrivals).seen, FilterLife(arrivals).marks, a.now, now, DISPATCH_LIMITS);
    }
  }

  /** At any point of a node's life a packet is dropped as a duplicate if and only if it is no fragment, the last mark
      of its key is younger than 10 s, and fewer than 1,000 marks followed it. */
  lemma {:induction false} DuplicateExactly(arrivals: seq<Arrival>, n: nat)
    requires AreArrivals(arrivals) && n < |arrivals|
    ensures
      var life := FilterLife(arrivals[..n]);
      var a := arrivals[n];
      var last := LastMark(life.marks, DispatchKey(a.packet));
      Filter(life.seen, a.packet, a.now).0
      <==> && a.packet.packetType != 0x20 && last >= 0 && a.now - life.marks[last].time < 10_000
           && |life.marks| - 1 - last < 1_000
  {
    var a := arrivals[n];
    FilterKeepsMarks(arrivals[..n], a.now);
    LookAnswersLog(FilterLife(arrivals[..n]).seen, FilterLife(arrivals[..n]).marks, DispatchKey(a.packet), a.now,
                   DISPATCH_LIMITS);
  }

  // ----- The flood -----

  /** A node that has not seen the packet, may relay it, and is certain to, to `next` among others. */
  predicate RelaysCertainly(node: Node, me: bytes, p: Packet, d: Delivery, next: bytes) {
    && FromWire(p) && p.sender != me && p.ttl > 0 && !AddressedTo(p, me)
    && !HasKey(node.dispatch, DispatchKey(p)) && !HasKey(node.relay, RelayKey(p))
    && RouteAccepted(p) && UnicastTo(me, p, d.around).None?
    && (p.ttl - 1 >= 4 || d.around.networkSize <= 3) && d.around.canBroadcast && next in d.targets
  }

  lemma {:induction false} UnknownKey<K>(d: seq<Entry<K>>, key: K, now: int, limits: Limits)
    requires !HasKey(d, key)
    ensures !Look(d, key, now, limits).0
  {
  }

  lemma ForwardsToAll(me: bytes, p: Packet, around: Surroundings)
    requires FromWire(p) && p.ttl > 0 && RouteAccepted(p) && UnicastTo(me, p, around).None?
    requires (p.ttl - 1 >= 4 || around.networkSize <= 3) && around.canBroadcast
    ensures Relay.Forward(me, p.WithTtl(p.ttl - 1), around) == ToAll(p.WithTtl(p.ttl - 1))
  {
  }

  lemma RelaysToAll(node: Node, me: bytes, p: Packet, d: Delivery, next: bytes)
    requires RelaysCertainly(node, me, p, d, next)
    ensures Dispatch(node, me, p, d.now, d.around).action == ToAll(p.WithTtl(p.ttl - 1))
  {
    UnknownKey(node.dispatch, DispatchKey(p), d.now, DISPATCH_LIMITS);
    UnknownKey(node.relay, RelayKey(p), d.around.lookAt, RELAY_LIMITS);
    ForwardsToAll(me, p, d.around);
  }

  /** Such a delivery puts a copy for `next` on the air, and no other node notices. */
  lemma OneHop(net: Net, d: Delivery, fanout: nat, next: bytes) returns (j: nat)
    requires CanDeliver(net, d, fanout)
    requires var c := net.air[d.index]; RelaysCertainly(net.nodes[c.dest], c.dest, c.packet, d, next)
    ensures
      var c := net.air[d.index];
      var after := Deliver(net, d, fanout);
      && j < |after.air|
      && after.air[j] == Copy(next, c.packet.WithTtl(c.packet.ttl - 1), c.initialTtl, c.path + [c.dest])
      && after.nodes.Keys == net.nodes.Keys
      && (forall v :: v in net.nodes && v != c.dest ==> after.nodes[v] == net.nodes[v])
  {
    var c := net.air[d.index];
    RelaysToAll(net.nodes[c.dest], c.dest, c.packet, d, next);
    j := CopyFor(net.air[..d.index] + net.air[d.index + 1..], c, c.packet.WithTtl(c.packet.ttl - 1), d.targets, next);
  }

  lemma CopyFor(rest: seq<Copy>, c: Copy, sent: Packet, targets: seq<bytes>, next: bytes) returns (j: nat)
    requires next in targets
    ensures
      var air := rest + CopiesOf(c, ToAll(sent), targets);
      j < |air| && air[j] == Copy(next, sent, c.initialTtl, c.path + [c.dest])
  {
    var k :| 0 <= k < |targets| && targets[k] == next;
    j := |rest| + k;
    assert (rest + CopiesOf(c, ToAll(sent), targets))[j] == CopiesOf(c, ToAll(sent), targets)[k];
  }

  predicate OnAir(nets: seq<Net>, i: nat, c: Copy) {
    i < |nets| && c in nets[i].air
  }

  /** Event i of a run delivers the copy. */
  predicate Delivers(nets: seq<Net>, ds: seq<Delivery>, i: nat, c: Copy) {
    i < |nets| && i < |ds| && ds[i].index < |nets[i].air| && nets[i].air[ds[i].index] == c
  }

  /** A copy on the air stays there until it is delivered: it is still there before event `b`, or event `i` has
      delivered it. */
  lemma {:induction false} StaysInFlight(nets: seq<Net>, ds: seq<Delivery>, fanout: nat, a: nat, b: nat, c: Copy)
    returns (i: nat)
    requires IsRun(nets, ds, fanout) && a <= b <= |ds| && OnAir(nets, a, c)
    ensures OnAir(nets, b, c) || (a <= i < b && Delivers(nets, ds, i, c))
    decreases b - a
  {
    i := a;
    if a < b && !Delivers(nets, ds, a, c) {
      NextInFlight(nets, ds, fanout, a, c);
      i := StaysInFlight(nets, ds, fanout, a + 1, b, c);
    }
  }

  lemma NextInFlight(nets: seq<Net>, ds: seq<Delivery>, fanout: nat, i: nat, c: Copy)
    requires IsRun(nets, ds, fanout) && i < |ds| && OnAir(nets, i, c)
    ensures OnAir(nets, i + 1, c) || Delivers(nets, ds, i, c)
  {
    assert IsStep(nets[i], ds[i], nets[i + 1], fanout);
    if nets[i].air[ds[i].index] != c {
      OthersStay(nets[i], ds[i], fanout, c);
    }
  }

  lemma OthersStay(net: Net, d: Delivery, fanout: nat, c: Copy)
    requires CanDeliver(net, d, fanout) && c in net.air && net.air[d.index] != c
    ensures c in Deliver(net, d, fanout).air
  {
    var i :| 0 <= i < |net.air| && net.air[i] == c;
    assert net.air == net.air[..d.index] + [net.air[d.index]] + net.air[d.index + 1..];
    assert c in net.air[..d.index] || c in net.air[d.index + 1..];
  }

  /** What a hop of the path needs: certain relaying, and clocks that have not passed. */
  predicate CanHop(net: Net, me: bytes, p: Packet, d: Delivery, next: bytes, fanout: nat) {
    && me in net.nodes && RelaysCertainly(net.nodes[me], me, p, d, next)
    && |d.targets| <= fanout && fanout >= 1 && d.wholes == []
    && net.nodes[me].dispatchClock <= d.now <= d.around.lookAt
    && net.nodes[me].relayClock <= d.around.lookAt <= d.around.markAt
  }

  /** A path of distinct nodes along which a copy of `p` can hop, as many times as there are entries in the plan. */
  predicate CanTravel(net: Net, p: Packet, path: seq<bytes>, plan: seq<Delivery>, fanout: nat) {
    && |path| == |plan| + 1 && |plan| <= p.ttl
    && (forall i, j :: 0 <= i < j < |path| ==> path[i] != path[j])
    && forall j :: 0 <= j < |plan| ==> CanHop(net, path[j], p.WithTtl(p.ttl - j), plan[j], path[j + 1], fanout)
  }

  /** A flood reaches: along every path of distinct nodes that have not seen the packet, are neither its origin nor its
      recipient, and relay with certainty, there is a run after which a copy for the last node is on the air, relayed by
      all nodes before it, with the TTL lowered by one for each. The path may be as long as the TTL. */
  lemma {:induction false} FloodReaches(
    net: Net, index: nat, path: seq<bytes>, plan: seq<Delivery>, fanout: nat)
    returns (nets: seq<Net>, ds: seq<Delivery>, last: nat)
    requires index < |net.air| && path != [] && net.air[index].dest == path[0]
    requires CanTravel(net, net.air[index].packet, path, plan, fanout)
    ensures IsRun(nets, ds, fanout) && |ds| == |plan| && nets[0] == net
    ensures forall j :: 0 <= j < |ds| ==> ds[j] == plan[j].(index := ds[j].index)
    ensures last < |nets[|ds|].air|
    ensures
      var c := net.air[index];
      nets[|ds|].air[last]
      == Copy(path[|plan|], c.packet.WithTtl(c.packet.ttl - |plan|), c.initialTtl, c.path + path[..|plan|])
    decreases |plan|
  {
    var c := net.air[index];
    if plan == [] {
      nets, ds, last := [net], [], index;
      assert c.packet.WithTtl(c.packet.ttl) == c.packet && c.path + path[..0] == c.path;
    } else {
      var d := plan[0].(index := index);
      var j := FirstHop(net, index, path, plan, fanout);
      var laterNets, laterDs;
      laterNets, laterDs, last := FloodReaches(Deliver(net, d, fanout), j, path[1..], plan[1..], fanout);
      nets, ds := [net] + laterNets, [d] + laterDs;
      RunFrom(net, d, laterNets, laterDs, fanout);
      PathFrom(c.path, path, |plan|);
    }
  }

  lemma FirstHop(net: Net, index: nat, path: seq<bytes>, plan: seq<Delivery>, fanout: nat) returns (j: nat)
    requires index < |net.air| && path != [] && plan != [] && net.air[index].dest == path[0]
    requires CanTravel(net, net.air[index].packet, path, plan, fanout)
    ensures CanDeliver(net, plan[0].(index := index), fanout)
    ensures
      var c := net.air[index];
      var next := Deliver(net, plan[0].(index := index), fanout);
      && c.packet.ttl > 0 && j < |next.air|
      && next.air[j] == Copy(path[1], c.packet.WithTtl(c.packet.ttl - 1), c.initialTtl, c.path + [path[0]])
      && CanTravel(next, next.air[j].packet, path[1..], plan[1..], fanout)
  {
    var c := net.air[index];
    var d := plan[0].(index := index);
    assert CanHop(net, path[0], c.packet.WithTtl(c.packet.ttl - 0), plan[0], path[1], fanout);
    assert c.packet.WithTtl(c.packet.ttl - 0) == c.packet;
    j := OneHop(net, d, fanout, path[1]);
    TravelsOn(net, Deliver(net, d, fanout), c.packet, path, plan, fanout);
  }

  lemma RunFrom(net: Net, d: Delivery, nets: seq<Net>, ds: seq<Delivery>, fanout: nat)
    requires CanDeliver(net, d, fanout) && IsRun(nets, ds, fanout) && nets[0] == Deliver(net, d, fanout)
    ensures IsRun([net] + nets, [d] + ds, fanout)
    ensures ([net] + nets)[|ds| + 1] == nets[|ds|]
  {
    forall i | 0 <= i < |ds| + 1
      ensures IsStep(([net] + nets)[i], ([d] + ds)[i], ([net] + nets)[i + 1], fanout)
    {
      if i > 0 {
        LaterStep(net, d, nets, ds, fanout, i);
      }
    }
  }

  lemma LaterStep(net: Net, d: Delivery, nets: seq<Net>, ds: seq<Delivery>, fanout: nat, i: nat)
    requires IsRun(nets, ds, fanout) && 0 < i <= |ds|
    ensures IsStep(([net] + nets)[i], ([d] + ds)[i], ([net] + nets)[i + 1], fanout)
  {
    assert IsStep(nets[i - 1], ds[i - 1], nets[i], fanout);
    FirstThen(net, nets, i);
    FirstThen(net, nets, i + 1);
    FirstThen(d, ds, i);
  }

  lemma PathFrom(before: seq<bytes>, path: seq<bytes>, n: nat)
    requires 0 < n < |path|
    ensures before + [path[0]] + path[1..][..n - 1] == before + path[..n] && path[1..][n - 1] == path[n]
  {
    assert path[..n] == [path[0]] + path[1..][..n - 1];
  }

  /** The rest of the path can still be travelled: its nodes are not the one that relayed. */
  lemma TravelsOn(net: Net, next: Net, p: Packet, path: seq<bytes>, plan: seq<Delivery>, fanout: nat)
    requires CanTravel(net, p, path, plan, fanout) && plan != []
    requires next.nodes.Keys == net.nodes.Keys
    requires forall v :: v in net.nodes && v != path[0] ==> next.nodes[v] == net.nodes[v]
    ensures p.ttl > 0 && CanTravel(next, p.WithTtl(p.ttl - 1), path[1..], plan[1..], fanout)
  {
    var q := p.WithTtl(p.ttl - 1);
    forall j | 0 <= j < |plan[1..]|
      ensures CanHop(next, path[1..][j], q.WithTtl(q.ttl - j), plan[1..][j], path[1..][j + 1], fanout)
    {
      assert CanHop(net, path[j + 1], p.WithTtl(p.ttl - (j + 1)), plan[j + 1], path[j + 2], fanout);
      assert q.WithTtl(q.ttl - j) == p.WithTtl(p.ttl - (j + 1));
    }
  }
}
