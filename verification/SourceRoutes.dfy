/** Source-routed packets: a chain of relays makes progress along the route. */
module SourceRoutes {
  import opened Bytes
  import opened Packets
  import opened CodecTheorems
  import opened Relay
  import opened Network

  /** The first position of a hop of a route without duplicates is its only one. */
  lemma {:induction false} FindSelfAt(route: seq<bytes>, i: nat)
    requires !HasDuplicates(route) && i < |route| && |route[i]| == PEER_ID_SIZE
    ensures FindSelf(route, route[i]) == i
  {
    var j := FindSelf(route, route[i]);
    assert route[j] == route[i];
  }

  /** Nodes that hand a source-routed packet on, each to its next hop. A recipient does not relay. */
  ghost predicate HandedOn(p: Packet, visited: seq<bytes>)
    requires p.HasRoute()
  {
    visited != [] && forall j :: 0 <= j < |visited| - 1 ==> Leads(p, visited[j], visited[j + 1])
  }

  /** A node on the route that is not the recipient, and its next hop. */
  predicate Leads(p: Packet, me: bytes, next: bytes)
    requires p.HasRoute()
  {
    && FindSelf(p.route.value, me) >= 0 && Some(me) != p.recipient
    && NextHop(p, FindSelf(p.route.value, me)) == Some(next)
  }

  /** On an accepted route a chain of successful source-routed relays visits strictly increasing hop positions, one
      after the other, and has reached the recipient once it has passed the last hop: at most |route| relays. */
  lemma {:induction false} RouteProgress(p: Packet, visited: seq<bytes>, n: nat)
    requires p.HasRoute() && !HasDuplicates(p.route.value)
    requires forall i :: 0 <= i < |p.route.value| ==> |p.route.value[i]| == PEER_ID_SIZE
    requires HandedOn(p, visited) && n < |visited|
    requires FindSelf(p.route.value, visited[0]) >= 0
    ensures
      var start := FindSelf(p.route.value, visited[0]);
      if start + n < |p.route.value|
      then WireId(visited[n]) == p.route.value[start + n] && FindSelf(p.route.value, visited[n]) == start + n
      else start + n == |p.route.value| && Some(visited[n]) == p.recipient && n == |visited| - 1
  {
    var route := p.route.value;
    assert n < |visited| - 1 ==> Leads(p, visited[n], visited[n + 1]);
    if n > 0 {
      RouteProgress(p, visited, n - 1);
      assert Leads(p, visited[n - 1], visited[n]);
      var start := FindSelf(route, visited[0]);
      if start + n < |route| {
        FindSelfAt(route, start + n);
      }
    }
  }

  /** A node that receives a packet. */
  datatype Hand = Hand(node: Node, me: bytes, packet: Packet, now: int, around: Surroundings)
  {
    function Action(): Action
      requires FromWire(packet)
    {
      Dispatch(node, me, packet, now, around).action
    }
  }

  /** Each node hands what it received to the next one, which receives what was sent; `target` is handed it last. */
  ghost predicate PassedOn(hands: seq<Hand>, target: bytes) {
    hands != [] && forall j :: 0 <= j < |hands| ==> HandsOver(hands, target, j)
  }

  ghost predicate HandsOver(hands: seq<Hand>, target: bytes, j: nat)
    requires j < |hands|
  {
    && FromWire(hands[j].packet) && hands[j].me != Repeat(0xFF, PEER_ID_SIZE)
    && hands[j].Action().ToPeer?
    && hands[j].Action().peer == (if j + 1 < |hands| then hands[j + 1].me else target)
    && (j + 1 < |hands| ==> hands[j + 1].packet == hands[j].Action().sent)
  }

  /** The nodes in the order in which they have the packet. */
  function Visited(hands: seq<Hand>, target: bytes): (ids: seq<bytes>)
    ensures |ids| == |hands| + 1
  {
    seq(|hands|, j requires 0 <= j < |hands| => hands[j].me) + [target]
  }

  /** What it takes for dispatching to end in a unicast. */
  lemma UnicastFollowsRoute(h: Hand)
    requires FromWire(h.packet) && h.Action().ToPeer? && h.me != Repeat(0xFF, PEER_ID_SIZE)
    ensures
      var p := h.packet;
      && p.HasRoute() && !HasDuplicates(p.route.value) && Leads(p, h.me, h.Action().peer)
      && p.ttl > 0 && h.Action().sent == p.WithTtl(p.ttl - 1)
  {
  }

  lemma {:induction false} OnePacket(hands: seq<Hand>, target: bytes, n: nat)
    requires PassedOn(hands, target) && n < |hands|
    ensures n < hands[0].packet.ttl && hands[n].packet == hands[0].packet.WithTtl(hands[0].packet.ttl - n)
    ensures hands[0].packet.HasRoute() && Leads(hands[0].packet, hands[n].me, Visited(hands, target)[n + 1])
  {
    assert HandsOver(hands, target, n);
    UnicastFollowsRoute(hands[n]);
    if n > 0 {
      OnePacket(hands, target, n - 1);
      assert HandsOver(hands, target, n - 1);
      UnicastFollowsRoute(hands[n - 1]);
    }
  }

  lemma PassedOnIsHandedOn(hands: seq<Hand>, target: bytes)
    requires PassedOn(hands, target)
    ensures hands[0].packet.HasRoute() && HandedOn(hands[0].packet, Visited(hands, target))
  {
    var visited := Visited(hands, target);
    OnePacket(hands, target, 0);
    forall j | 0 <= j < |visited| - 1
      ensures Leads(hands[0].packet, visited[j], visited[j + 1])
    {
      OnePacket(hands, target, j);
    }
  }

  lemma AcceptedRoute(hands: seq<Hand>, target: bytes)
    requires PassedOn(hands, target)
    ensures hands[0].packet.HasRoute() && !HasDuplicates(hands[0].packet.route.value)
    ensures FindSelf(hands[0].packet.route.value, hands[0].me) >= 0
    ensures AreHops(hands[0].packet.route.value)
  {
    assert HandsOver(hands, target, 0);
    UnicastFollowsRoute(hands[0]);
  }

  /** Whenever nodes pass a packet on by unicasts, the n-th relay leads to the n-th hop after the first node's own: the
      positions strictly increase, the TTL falls by one at each, and after at most as many relays as the route has
      hops the recipient has it. */
  lemma {:induction false} SourceRouteProgress(hands: seq<Hand>, target: bytes, n: nat)
    requires PassedOn(hands, target) && n <= |hands|
    ensures hands[0].packet.HasRoute()
    ensures
      var p := hands[0].packet;
      var route := p.route.value;
      var start := FindSelf(route, hands[0].me);
      var visited := Visited(hands, target);
      && 0 <= start && start + |hands| <= |route| && |hands| <= p.ttl
      && if start + n < |route|
         then WireId(visited[n]) == route[start + n] && FindSelf(route, visited[n]) == start + n
         else n == |hands| && Some(target) == p.recipient
  {
    var p := hands[0].packet;
    var visited := Visited(hands, target);
    AcceptedRoute(hands, target);
    PassedOnIsHandedOn(hands, target);
    OnePacket(hands, target, |hands| - 1);
    RouteProgress(p, visited, n);
    RouteProgress(p, visited, |hands|);
  }
}
