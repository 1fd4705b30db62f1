/** Whole runs of the fragment manager: any arrivals and sweeps are a run, so results about runs hold of the class. */
module FragmentRuns {
  import opened Bytes
  import opened Seqs
  import opened Packets
  import opened Reassembly
  import opened Attempts
  import opened FragmentManagers

  /** What reaches the manager: FRAGMENT packets, and rounds of the cleanup loop. */
  datatype Call = FragmentCall(packet: Packet, created: real, touched: real) | CleanupCall(now: real)

  /** The event of a call; a sweep goes through the sets in some order. */
  predicate IsEventOf(e: Event, c: Call) {
    match c
    case FragmentCall(packet, created, touched) => e == Arrive(packet.sender, packet.payload, created, touched)
    case CleanupCall(now) => e.Sweep? && e.now == now
  }

  ghost predicate AllHonest(world: World, events: seq<Event>) {
    forall i :: 0 <= i < |events| ==> Honest(world, events[i])
  }

  ghost predicate AllExact(world: World, events: seq<Event>, outcomes: seq<Outcome>)
    requires |events| == |outcomes|
  {
    forall i :: 0 <= i < |events| ==> ExactOutcome(world, events[i], outcomes[i])
  }

  lemma {:induction false} RunGrows(
    states: seq<Memory>, events: seq<Event>, outcomes: seq<Outcome>, persistent: bool, after: Memory, e: Event,
    outcome: Outcome)
    requires IsRun(states, events, outcomes, persistent)
    requires Step(states[|events|], e, after, outcome, persistent)
    ensures IsRun(states + [after], events + [e], outcomes + [outcome], persistent)
  {
    Pushed(states, after);
    Pushed(events, e);
    Pushed(outcomes, outcome);
    forall i | 0 <= i < |events| + 1
      ensures Step((states + [after])[i], (events + [e])[i], (states + [after])[i + 1], (outcomes + [outcome])[i],
                   persistent)
    {
      if i < |events| {
        assert Step(states[i], events[i], states[i + 1], outcomes[i], persistent);
      }
    }
  }

  /** The keys of a dictionary, each once, in some order. */
  method KeysOf(sets: map<bytes, FragmentSet>) returns (order: seq<bytes>)
    ensures Enumerates(order, sets.Keys)
  {
    order := [];
    var rest := sets;
    while rest != map[]
      invariant forall i, j :: 0 <= i < j < |order| ==> order[i] != order[j]
      invariant forall k :: k in rest ==> k !in order
      invariant forall k :: k in sets <==> k in order || k in rest
      decreases rest.Keys
    {
      var k :| k in rest;
      order := order + [k];
      rest := rest - {k};
    }
  }

  method ServeOne(manager: FragmentManager, c: Call) returns (reply: Reply, ghost e: Event, ghost outcome: Outcome)
    requires manager.Valid()
    modifies manager
    ensures manager.Valid()
    ensures Step(old(manager.Mem()), e, manager.Mem(), outcome, manager.persistent)
    ensures IsEventOf(e, c) && reply == ReplyOf(outcome, manager.decode)
  {
    match c
    case FragmentCall(packet, created, touched) =>
      e := Arrive(packet.sender, packet.payload, created, touched);
      outcome := Handle(manager.Mem(), packet.sender, packet.payload, created, touched).1;
      reply := manager.HandleFragment(packet, created, touched);
    case CleanupCall(now) =>
      var order := KeysOf(manager.sets);
      e, outcome := Sweep(now, order), Waiting;
      manager.CleanupOld(now, order);
      reply := Returned(None);
  }

  /** A manager serves any arrivals and sweeps: what happens is a run, its replies are those of the run's outcomes,
      every counter stays exact and every cap holds; and if each fragment id has one sender and all fragments of one key
      are chunks of one string, every completed reassembly is exactly that string and nothing ever raises. */
  method Serve(manager: FragmentManager, calls: seq<Call>)
    returns (replies: seq<Reply>, ghost states: seq<Memory>, ghost events: seq<Event>, ghost outcomes: seq<Outcome>)
    requires manager.Valid()
    modifies manager
    ensures manager.Valid()
    ensures IsRun(states, events, outcomes, manager.persistent) && |replies| == |events| == |calls|
    ensures states[0] == old(manager.Mem()) && states[|calls|] == manager.Mem()
    ensures forall i :: 0 <= i < |calls| ==>
              IsEventOf(events[i], calls[i]) && replies[i] == ReplyOf(outcomes[i], manager.decode)
    ensures forall world: World :: Sound(world, old(manager.Mem())) && AllHonest(world, events) ==>
              Sound(world, manager.Mem()) && AllExact(world, events, outcomes)
  {
    replies, states, events, outcomes := [], [manager.Mem()], [], [];
    for i := 0 to |calls|
      invariant manager.Valid()
      invariant IsRun(states, events, outcomes, manager.persistent) && |replies| == |events| == i
      invariant states[0] == old(manager.Mem()) && states[i] == manager.Mem()
      invariant forall j :: 0 <= j < i ==>
                  IsEventOf(events[j], calls[j]) && replies[j] == ReplyOf(outcomes[j], manager.decode)
    {
      var reply;
      ghost var e, outcome;
      reply, e, outcome := ServeOne(manager, calls[i]);
      RunGrows(states, events, outcomes, manager.persistent, manager.Mem(), e, outcome);
      replies, states := replies + [reply], states + [manager.Mem()];
      events, outcomes := events + [e], outcomes + [outcome];
    }
    forall world: World | Sound(world, old(manager.Mem())) && AllHonest(world, events)
      ensures Sound(world, manager.Mem()) && AllExact(world, events, outcomes)
    {
      RunsReassembleExactly(world, states, events, outcomes, manager.persistent, |calls|);
    }
  }
}
