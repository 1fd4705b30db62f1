/** A mesh of nodes that filter, dispatch and relay packets: flooding is safe and dies out. */
module Network {
  import opened Bytes
  import opened Packets
  import opened Sums
  import opened CodecTheorems
  import opened SeenCaches
  import opened Relay

  /** A node: its two duplicate caches, the unbounded logs they stand for, when each was last used, and what it sent. */
  datatype Node = Node(
    dispatch: seq<Entry<bytes>>, dispatchLog: seq<Entry<bytes>>,
    relay: seq<Entry<bytes>>, relayLog: seq<Entry<bytes>>,
    dispatchClock: int, relayClock: int, sent: seq<Sent>)

  /** A relayed packet and the index of the mark that admitted it. */
  datatype Sent = Sent(packet: Packet, mark: nat)

  /** A packet on its way to a node, with the nodes that relayed it so far. */
  datatype Copy = Copy(dest: bytes, packet: Packet, initialTtl: nat, path: seq<bytes>)

  datatype Net = Net(nodes: map<bytes, Node>, air: seq<Copy>)

  // ----- One delivery -----

  predicate AddressedTo(p: Packet, me: bytes) {
    p.recipient == Some(me) && (p.packetType == FRAGMENT || !p.IsBroadcast())
  }

  /** What dispatching one packet does to a node. */
  datatype Dispatched = Dispatched(node: Node, action: Action)

  /** _dispatch, as far as relaying goes: own packets and duplicates are dropped, packets to this node are kept. */
  function Dispatch(node: Node, me: bytes, p: Packet, now: int, around: Surroundings): Dispatched
    requires FromWire(p)
  {
    if p.sender == me then Dispatched(node, Silent)
    else
      var filtered := Filtered(node, p, now);
      if Filter(node.dispatch, p, now).0 || AddressedTo(p, me) then Dispatched(filtered, Silent)
      else RelayAt(filtered, me, p, around)
  }

  /** The node after the duplicate filter has looked at a packet. */
  function Filtered(node: Node, p: Packet, now: int): Node
    requires FromWire(p)
  {
    var (duplicate, dispatch) := Filter(node.dispatch, p, now);
    node.(
      dispatch := dispatch,
      dispatchLog := if duplicate || p.packetType == FRAGMENT then node.dispatchLog
                     else node.dispatchLog + [Entry(DispatchKey(p), now)],
      dispatchClock := now)
  }

  function RelayAt(node: Node, me: bytes, p: Packet, around: Surroundings): Dispatched
    requires FromWire(p)
  {
    var (relay, action) := HandleRelay(node.relay, me, p, p.sender, around);
    var admitted := p.sender != me && p.ttl > 0 && !Look(node.relay, RelayKey(p), around.lookAt, RELAY_LIMITS).0;
    Dispatched(
      node.(
        relay := relay,
        relayLog := if admitted then node.relayLog + [Entry(RelayKey(p), around.markAt)] else node.relayLog,
        relayClock := around.markAt,
        sent := if action.Silent? then node.sent else node.sent + [Sent(action.sent, |node.relayLog|)]),
      action)
  }

  /** The copies an action puts on the air; a broadcast reaches whichever nodes are in range. */
  function CopiesOf(c: Copy, action: Action, targets: seq<bytes>): seq<Copy> {
    match action
    case Silent => []
    case ToPeer(peer, sent) => [Copy(peer, sent, c.initialTtl, c.path + [c.dest])]
    case ToAll(sent) =>
      seq(|targets|, i requires 0 <= i < |targets| => Copy(targets[i], sent, c.initialTtl, c.path + [c.dest]))
  }

  /** A packet that a fragment completed, dispatched in its turn; its TTL is 0, so it is not relayed. */
  datatype Whole = Whole(packet: Packet, now: int)

  predicate AreWholes(wholes: seq<Whole>, from: int) {
    && (forall i :: 0 <= i < |wholes| ==>
          FromWire(wholes[i].packet) && wholes[i].packet.ttl == 0 && from <= wholes[i].now)
    && (forall i, j :: 0 <= i < j < |wholes| ==> wholes[i].now <= wholes[j].now)
  }

  /** The node after it has dispatched what a fragment completed; a whole may be a fragment that completes another. */
  function Reassembled(node: Node, me: bytes, wholes: seq<Whole>): Node
    requires forall i :: 0 <= i < |wholes| ==> FromWire(wholes[i].packet)
  {
    if wholes == [] then node
    else
      var before := Reassembled(node, me, wholes[..|wholes| - 1]);
      var last := wholes[|wholes| - 1];
      if last.packet.sender == me then before else Filtered(before, last.packet, last.now)
  }

  /** What a delivery depends on: which copy arrives, when, in what surroundings, who is in range, and what the copy
      completes if it is a fragment. */
  datatype Delivery = Delivery(
    index: nat, now: int, around: Surroundings, targets: seq<bytes>, wholes: seq<Whole>)

  predicate CanDeliver(net: Net, d: Delivery, fanout: nat) {
    && d.index < |net.air| && net.air[d.index].dest in net.nodes && FromWire(net.air[d.index].packet)
    && |d.targets| <= fanout && fanout >= 1 && AreWholes(d.wholes, d.now)
    && (d.wholes != [] ==>
          net.air[d.index].packet.packetType == FRAGMENT && net.air[d.index].packet.sender != net.air[d.index].dest)
    && net.nodes[net.air[d.index].dest].dispatchClock <= d.now <= d.around.lookAt
    && net.nodes[net.air[d.index].dest].relayClock <= d.around.lookAt <= d.around.markAt
  }

  function Deliver(net: Net, d: Delivery, fanout: nat): Net
    requires CanDeliver(net, d, fanout)
  {
    var c := net.air[d.index];
    var r := Dispatch(net.nodes[c.dest], c.dest, c.packet, d.now, d.around);
    Net(net.nodes[c.dest := Reassembled(r.node, c.dest, d.wholes)],
        net.air[..d.index] + net.air[d.index + 1..] + CopiesOf(c, r.action, d.targets))
  }

  // ----- What every node keeps -----

  /** Broadcasts and unicasts in the order of distinct marks of their keys, never the node's own packets. */
  ghost predicate SentOk(node: Node, me: bytes) {
    && (forall i :: 0 <= i < |node.sent| ==>
          && node.sent[i].mark < |node.relayLog| && FromWire(node.sent[i].packet)
          && node.relayLog[node.sent[i].mark].key == RelayKey(node.sent[i].packet)
          && node.sent[i].packet.sender != me)
    && (forall i, j :: 0 <= i < j < |node.sent| ==> node.sent[i].mark < node.sent[j].mark)
  }

  ghost predicate CachesOk(node: Node) {
    && Represents(node.dispatch, node.dispatchLog, node.dispatchClock, DISPATCH_LIMITS)
    && Represents(node.relay, node.relayLog, node.relayClock, RELAY_LIMITS)
    && WellSpaced(node.dispatchLog, DISPATCH_LIMITS) && WellSpaced(node.relayLog, RELAY_LIMITS)
  }

  ghost predicate NodeOk(node: Node, me: bytes) {
    CachesOk(node) && SentOk(node, me)
  }

  /** Relays so far and TTL left add up to the initial TTL, and the origin is not among the relays. */
  ghost predicate CopyOk(c: Copy) {
    c.packet.ttl + |c.path| == c.initialTtl && c.packet.sender !in c.path
  }

  ghost predicate NetOk(net: Net) {
    && (forall v :: v in net.nodes ==> NodeOk(net.nodes[v], v))
    && (forall i :: 0 <= i < |net.air| ==> CopyOk(net.air[i]))
  }

  lemma FilterKeepsCaches(node: Node, me: bytes, p: Packet, now: int)
    requires FromWire(p) && NodeOk(node, me) && node.dispatchClock <= now
    ensures
      var filtered := Filtered(node, p, now);
      && Represents(filtered.dispatch, filtered.dispatchLog, now, DISPATCH_LIMITS)
      && WellSpaced(filtered.dispatchLog, DISPATCH_LIMITS)
  {
    if p.packetType == FRAGMENT {
      RepresentsLater(node.dispatch, node.dispatchLog, node.dispatchClock, now, DISPATCH_LIMITS);
    } else {
      var probe := Probe(DispatchKey(p), now, now);
      ProbeKeepsLog(node.dispatch, node.dispatchLog, probe, node.dispatchClock, DISPATCH_LIMITS);
      if !Filter(node.dispatch, p, now).0 {
        UnseenKeepsSpacing(node.dispatchLog, probe, DISPATCH_LIMITS);
      }
    }
  }

  lemma RelayKeepsCaches(node: Node, me: bytes, p: Packet, around: Surroundings)
    requires FromWire(p) && CachesOk(node) && node.relayClock <= around.lookAt <= around.markAt
    ensures CachesOk(RelayAt(node, me, p, around).node)
  {
    var after := RelayAt(node, me, p, around).node;
    if p.sender == me || p.ttl == 0 {
      RepresentsLater(node.relay, node.relayLog, node.relayClock, around.markAt, RELAY_LIMITS);
    } else {
      var probe := Probe(RelayKey(p), around.lookAt, around.markAt);
      ProbeKeepsLog(node.relay, node.relayLog, probe, node.relayClock, RELAY_LIMITS);
      if !Look(node.relay, RelayKey(p), around.lookAt, RELAY_LIMITS).0 {
        UnseenKeepsSpacing(node.relayLog, probe, RELAY_LIMITS);
      }
    }
  }

  lemma RelayKeepsSent(node: Node, me: bytes, p: Packet, around: Surroundings)
    requires FromWire(p) && SentOk(node, me)
    ensures SentOk(RelayAt(node, me, p, around).node, me)
  {
    var r := RelayAt(node, me, p, around);
    RelayLowersTtl(node.relay, me, p, p.sender, around);
    if !r.action.Silent? {
      SentOnce(node, me, r.action.sent, Entry(RelayKey(p), around.markAt));
    }
  }

  lemma SentOnce(node: Node, me: bytes, out: Packet, e: Entry<bytes>)
    requires SentOk(node, me) && FromWire(out) && out.sender != me && RelayKey(out) == e.key
    ensures SentOk(node.(relayLog := node.relayLog + [e], sent := node.sent + [Sent(out, |node.relayLog|)]), me)
  {
  }

  lemma FilterKeepsNode(node: Node, me: bytes, p: Packet, now: int)
    requires FromWire(p) && NodeOk(node, me) && node.dispatchClock <= now
    ensures NodeOk(Filtered(node, p, now), me)
  {
    FilterKeepsCaches(node, me, p, now);
  }

  lemma DispatchKeepsNode(node: Node, me: bytes, p: Packet, now: int, around: Surroundings)
    requires FromWire(p) && NodeOk(node, me)
    requires node.dispatchClock <= now && node.relayClock <= around.lookAt <= around.markAt
    ensures NodeOk(Dispatch(node, me, p, now, around).node, me)
  {
    if p.sender != me {
      var filtered := Filtered(node, p, now);
      FilterKeepsNode(node, me, p, now);
      RelayKeepsCaches(filtered, me, p, around);
      RelayKeepsSent(filtered, me, p, around);
    }
  }

  /** What a node sends on is what it received with the TTL one lower; own packets and TTL 0 stop. */
  lemma DispatchSends(node: Node, me: bytes, p: Packet, now: int, around: Surroundings)
    requires FromWire(p)
    ensures
      var action := Dispatch(node, me, p, now, around).action;
      !action.Silent? ==> p.sender != me && p.ttl > 0 && action.sent == p.WithTtl(p.ttl - 1)
  {
    var (duplicate, dispatch) := Filter(node.dispatch, p, now);
    RelayLowersTtl(node.relay, me, p, p.sender, around);
  }

  lemma CopiesOk(c: Copy, action: Action, targets: seq<bytes>)
    requires CopyOk(c)
    requires !action.Silent? ==> c.packet.sender != c.dest && c.packet.ttl > 0
                                 && action.sent == c.packet.WithTtl(c.packet.ttl - 1)
    ensures forall i :: 0 <= i < |CopiesOf(c, action, targets)| ==> CopyOk(CopiesOf(c, action, targets)[i])
  {
  }

  lemma DeliverKeepsNodes(net: Net, d: Delivery, fanout: nat)
    requires NetOk(net) && CanDeliver(net, d, fanout)
    ensures forall v :: v in Deliver(net, d, fanout).nodes ==> NodeOk(Deliver(net, d, fanout).nodes[v], v)
  {
    var c := net.air[d.index];
    ReceiverKept(net.nodes[c.dest], c.dest, c.packet, d);
  }

  lemma {:induction false} ReceiverKept(node: Node, me: bytes, p: Packet, d: Delivery)
    requires FromWire(p) && NodeOk(node, me) && AreWholes(d.wholes, d.now) && (d.wholes != [] ==> p.sender != me)
    requires node.dispatchClock <= d.now && node.relayClock <= d.around.lookAt <= d.around.markAt
    ensures NodeOk(Reassembled(Dispatch(node, me, p, d.now, d.around).node, me, d.wholes), me)
  {
    DispatchKeepsNode(node, me, p, d.now, d.around);
    ReassembledKeepsNode(Dispatch(node, me, p, d.now, d.around).node, me, d.wholes, d.now);
  }

  /** Dispatching what was reassembled keeps the duplicate caches exact too. */
  lemma {:induction false} ReassembledKeepsNode(node: Node, me: bytes, wholes: seq<Whole>, from: int)
    requires NodeOk(node, me) && AreWholes(wholes, from) && (wholes != [] ==> node.dispatchClock <= from)
    ensures NodeOk(Reassembled(node, me, wholes), me)
    ensures wholes != [] ==> Reassembled(node, me, wholes).dispatchClock <= wholes[|wholes| - 1].now
  {
    if wholes != [] {
      var n := |wholes| - 1;
      ReassembledKeepsNode(node, me, wholes[..n], from);
      FilterKeepsNode(Reassembled(node, me, wholes[..n]), me, wholes[n].packet, wholes[n].now);
    }
  }

  lemma AirWithout(air: seq<Copy>, i: nat, copies: seq<Copy>)
    requires i < |air|
    requires forall j :: 0 <= j < |air| ==> CopyOk(air[j])
    requires forall j :: 0 <= j < |copies| ==> CopyOk(copies[j])
    ensures var next := air[..i] + air[i + 1..] + copies; forall j :: 0 <= j < |next| ==> CopyOk(next[j])
  {
  }

  lemma DeliverKeepsAir(net: Net, d: Delivery, fanout: nat)
    requires NetOk(net) && CanDeliver(net, d, fanout)
    ensures forall i :: 0 <= i < |Deliver(net, d, fanout).air| ==> CopyOk(Deliver(net, d, fanout).air[i])
  {
    var c := net.air[d.index];
    var action := Dispatch(net.nodes[c.dest], c.dest, c.packet, d.now, d.around).action;
    DispatchSends(net.nodes[c.dest], c.dest, c.packet, d.now, d.around);
    CopiesOk(c, action, d.targets);
    AirWithout(net.air, d.index, CopiesOf(c, action, d.targets));
  }

  /** Every delivery keeps every node's duplicate caches exact and every copy's account of its TTL. */
  lemma DeliverKeepsNet(net: Net, d: Delivery, fanout: nat)
    requires NetOk(net) && CanDeliver(net, d, fanout)
    ensures NetOk(Deliver(net, d, fanout))
  {
    DeliverKeepsNodes(net, d, fanout);
    DeliverKeepsAir(net, d, fanout);
  }

  /** A network of nodes that have seen nothing, with packets fresh from their origins, is where runs start. */
  lemma FreshNetOk(net: Net)
    requires forall v :: v in net.nodes ==>
               var node := net.nodes[v];
               node.dispatch == node.dispatchLog == node.relay == node.relayLog == [] && node.sent == []
    requires forall i :: 0 <= i < |net.air| ==>
               net.air[i].path == [] && net.air[i].initialTtl == net.air[i].packet.ttl
    ensures NetOk(net)
  {
  }

  // ----- Flooding dies out -----

  function Power(base: nat, exponent: nat): (p: nat)
    ensures base > 0 ==> p > 0
  {
    if exponent == 0 then 1 else base * Power(base, exponent - 1)
  }

  /** The energy of the copies on the air: (fanout + 1) to the TTL, summed. */
  function Energy(air: seq<Copy>, fanout: nat): nat {
    if air == [] then 0 else Power(fanout + 1, air[0].packet.ttl) + Energy(air[1..], fanout)
  }

  lemma {:induction false} EnergyAppend(a: seq<Copy>, b: seq<Copy>, fanout: nat)
    ensures Energy(a + b, fanout) == Energy(a, fanout) + Energy(b, fanout)
  {
    if a == [] {
      assert a + b == b;
    } else {
      EnergyAppend(a[1..], b, fanout);
      assert (a + b)[1..] == a[1..] + b;
    }
  }

  lemma {:induction false} EnergyOfCopies(copies: seq<Copy>, ttl: nat, fanout: nat)
    requires forall i :: 0 <= i < |copies| ==> copies[i].packet.ttl == ttl
    ensures Energy(copies, fanout) == |copies| * Power(fanout + 1, ttl)
  {
    if copies != [] {
      EnergyOfCopies(copies[1..], ttl, fanout);
      MulStep(|copies| - 1, Power(fanout + 1, ttl));
    }
  }

  /** What a node puts on the air is worth less than what it took off. */
  lemma {:induction false} CopiesLoseEnergy(c: Copy, action: Action, targets: seq<bytes>, fanout: nat)
    requires |targets| <= fanout && fanout >= 1
    requires !action.Silent? ==> c.packet.ttl > 0 && action.sent.ttl == c.packet.ttl - 1
    ensures Energy(CopiesOf(c, action, targets), fanout) < Power(fanout + 1, c.packet.ttl)
  {
    var copies := CopiesOf(c, action, targets);
    if !action.Silent? {
      var worth := Power(fanout + 1, c.packet.ttl - 1);
      EnergyOfCopies(copies, c.packet.ttl - 1, fanout);
      MulStep(fanout, worth);
      MulMonotone(|copies|, fanout, worth);
    }
  }

  lemma {:induction false} EnergyWithout(air: seq<Copy>, i: nat, fanout: nat)
    requires i < |air|
    ensures Energy(air, fanout) == Energy(air[..i] + air[i + 1..], fanout) + Power(fanout + 1, air[i].packet.ttl)
  {
    EnergyAppend(air[..i], air[i + 1..], fanout);
    EnergyAppend(air[..i], air[i..], fanout);
    assert air == air[..i] + air[i..] && air[i..][1..] == air[i + 1..];
  }

  /** The energy on the air strictly falls at every delivery, whatever was or was not seen before. */
  lemma {:induction false} DeliverLosesEnergy(net: Net, d: Delivery, fanout: nat)
    requires CanDeliver(net, d, fanout)
    ensures Energy(Deliver(net, d, fanout).air, fanout) < Energy(net.air, fanout)
  {
    var c := net.air[d.index];
    var action := Dispatch(net.nodes[c.dest], c.dest, c.packet, d.now, d.around).action;
    EnergyWithout(net.air, d.index, fanout);
    EnergyAppend(net.air[..d.index] + net.air[d.index + 1..], CopiesOf(c, action, d.targets), fanout);
    DispatchSends(net.nodes[c.dest], c.dest, c.packet, d.now, d.around);
    CopiesLoseEnergy(c, action, d.targets, fanout);
  }

  // ----- Runs -----

  /** A run through `nets`, one delivery at a time. */
  ghost predicate IsRun(nets: seq<Net>, ds: seq<Delivery>, fanout: nat) {
    && |nets| == |ds| + 1
    && forall i :: 0 <= i < |ds| ==> IsStep(nets[i], ds[i], nets[i + 1], fanout)
  }

  ghost predicate IsStep(net: Net, d: Delivery, next: Net, fanout: nat) {
    CanDeliver(net, d, fanout) && next == Deliver(net, d, fanout)
  }

  /** What was proved of one delivery holds along every run, and no run is longer than the initial energy. */
  lemma {:induction false} RunsKeepNetAndEnd(nets: seq<Net>, ds: seq<Delivery>, fanout: nat, n: nat)
    requires IsRun(nets, ds, fanout) && NetOk(nets[0]) && n <= |ds|
    ensures NetOk(nets[n])
    ensures n + Energy(nets[n].air, fanout) <= Energy(nets[0].air, fanout)
  {
    if n > 0 {
      RunsKeepNetAndEnd(nets, ds, fanout, n - 1);
      DeliverKeepsNet(nets[n - 1], ds[n - 1], fanout);
      DeliverLosesEnergy(nets[n - 1], ds[n - 1], fanout);
    }
  }

  /** In every reachable network: two packets a node sent under one relay key were admitted at least five minutes or
      ten thousand marks apart, so while the key stays in window and within capacity the node sends it at most once;
      no node relays its own packets; and no copy has been relayed more often than its initial TTL. */
  lemma FloodSafety(nets: seq<Net>, ds: seq<Delivery>, fanout: nat, n: nat, v: bytes)
    requires IsRun(nets, ds, fanout) && NetOk(nets[0]) && n <= |ds| && v in nets[n].nodes
    ensures
      var node := nets[n].nodes[v];
      forall i, j :: 0 <= i < j < |node.sent| && FromWire(node.sent[i].packet) && FromWire(node.sent[j].packet)
                     && RelayKey(node.sent[i].packet) == RelayKey(node.sent[j].packet) ==>
        && node.sent[i].mark < node.sent[j].mark < |node.relayLog|
        && (|| node.relayLog[node.sent[j].mark].time - node.relayLog[node.sent[i].mark].time >= 300_000
            || node.sent[j].mark - node.sent[i].mark > 10_000)
    ensures forall i :: 0 <= i < |nets[n].nodes[v].sent| ==> nets[n].nodes[v].sent[i].packet.sender != v
    ensures forall i :: 0 <= i < |nets[n].air| ==>
              |nets[n].air[i].path| <= nets[n].air[i].initialTtl && nets[n].air[i].packet.sender !in nets[n].air[i].path
  {
    RunsKeepNetAndEnd(nets, ds, fanout, n);
    assert NodeOk(nets[n].nodes[v], v);
  }
}
