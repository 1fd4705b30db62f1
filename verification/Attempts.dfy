/** Whole runs of a fragment manager: counters, soundness across attempts, completion and resumption. */
module Attempts {
  import opened Bytes
  import opened Fragmentation
  import opened Reassembly
  import opened Conservation

  // ----- Runs -----

  datatype Event =
    | Arrive(sender: bytes, payload: bytes, created: real, touched: real)
    | Sweep(now: real, order: seq<bytes>)

  ghost predicate Step(m: Memory, e: Event, after: Memory, outcome: Outcome, persistent: bool) {
    match e
    case Arrive(sender, payload, created, touched) => (after, outcome) == Handle(m, sender, payload, created, touched)
    case Sweep(now, order) => outcome == Waiting && Swept(m, after, order, now, persistent)
  }

  /** A run through `states`: event i takes state i to state i+1 with outcome i. */
  ghost predicate IsRun(states: seq<Memory>, events: seq<Event>, outcomes: seq<Outcome>, persistent: bool) {
    && |states| == |events| + 1 && |outcomes| == |events|
    && forall i :: 0 <= i < |events| ==> Step(states[i], events[i], states[i + 1], outcomes[i], persistent)
  }

  lemma StepKeepsConsistent(m: Memory, e: Event, after: Memory, outcome: Outcome, persistent: bool)
    requires Consistent(m) && Step(m, e, after, outcome, persistent)
    ensures Consistent(after)
  {
    match e
    case Arrive(sender, payload, created, touched) => HandleKeepsConsistent(m, sender, payload, created, touched);
    case Sweep(now, order) => SweepKeepsConsistent(m, after, order, now, persistent);
  }

  /** Over every run every counter is exact and every cap holds at every call boundary. */
  lemma {:induction false} RunsConserveBytes(
    states: seq<Memory>, events: seq<Event>, outcomes: seq<Outcome>, persistent: bool, n: nat)
    requires IsRun(states, events, outcomes, persistent) && Consistent(states[0])
    requires n < |states|
    ensures Consistent(states[n])
  {
    if n > 0 {
      RunsConserveBytes(states, events, outcomes, persistent, n - 1);
      assert Step(states[n - 1], events[n - 1], states[n], outcomes[n - 1], persistent);
      StepKeepsConsistent(states[n - 1], events[n - 1], states[n], outcomes[n - 1], persistent);
    }
  }

  // ----- Counting pieces -----

  ghost function Indices(total: nat): (s: set<nat>)
    ensures forall i: nat :: i in s <==> i < total
    ensures |s| == total
  {
    if total == 0 then {} else Indices(total - 1) + {total - 1}
  }

  lemma SameSizeSubset<T>(small: set<T>, large: set<T>)
    requires small <= large && |small| == |large|
    ensures small == large
  {
    if small != large {
      var k :| k in large && k !in small;
      SubsetSize(small, large - {k});
    }
  }

  /** As many pieces as the total are all the pieces exactly when every index is below the total. */
  lemma CountedComplete(pieces: Pieces, total: nat)
    requires |pieces| == total
    ensures Complete(pieces, total) <==> forall i :: i in pieces ==> i < total
  {
    var _ := Indices(total);
    if Complete(pieces, total) {
      SameSizeSubset(Indices(total), pieces.Keys);
    } else if forall i :: i in pieces ==> i < total {
      SameSizeSubset(pieces.Keys, Indices(total));
    }
  }

  lemma CompleteCounted(pieces: Pieces, total: nat)
    requires forall i :: i in pieces ==> i < total
    ensures |pieces| <= total
    ensures |pieces| == total <==> Complete(pieces, total)
  {
    var _ := Indices(total);
    SubsetSize(pieces.Keys, Indices(total));
    if |pieces| == total {
      CountedComplete(pieces, total);
    }
    if Complete(pieces, total) {
      assert pieces.Keys == Indices(total);
    }
  }

  /** The final join raises KeyError exactly when the count is reached with an index out of range among the pieces. */
  lemma BrokenExactly(m: Memory, x: Piece, now: real)
    requires x.fragId in m.sets
    ensures AddPiece(m, x, now).1 == Broken <==>
            && Fits(m, x)
            && var pieces := m.sets[x.fragId].fragments[x.index := x.data];
               |pieces| == x.total && exists i :: i in pieces && i >= x.total
  {
    var pieces := m.sets[x.fragId].fragments[x.index := x.data];
    if |pieces| == x.total {
      CountedComplete(pieces, x.total);
    }
  }

  // ----- Soundness across attempts -----

  /** Every piece is the chunk of `list` with its index. */
  ghost predicate FromChunks(pieces: Pieces, list: seq<bytes>) {
    forall i :: i in pieces ==> i < |list| && pieces[i] == list[i]
  }

  /** One sender per fragment id, and one list of chunks per transfer key. */
  datatype World = World(owner: bytes -> bytes, chunks: RescueKey -> seq<bytes>)

  ghost predicate HonestPiece(world: World, sender: bytes, x: Piece) {
    var list := world.chunks(RescueKey(sender, x.total, x.originalType));
    world.owner(x.fragId) == sender && |list| == x.total && x.index < x.total && x.data == list[x.index]
  }

  /** A fragment the manager looks at: it decodes, within the fragment limit and with data. */
  predicate Considered(payload: bytes) {
    var decoded := DecodePiece(payload);
    decoded.Some? && decoded.value.total <= MAX_FRAGMENTS_PER_ID && decoded.value.data != []
  }

  ghost predicate Honest(world: World, e: Event) {
    e.Arrive? && Considered(e.payload) ==> HonestPiece(world, e.sender, DecodePiece(e.payload).value)
  }

  ghost predicate SoundSet(world: World, fragId: bytes, s: FragmentSet) {
    && s.sender == world.owner(fragId) && |world.chunks(s.Key())| == s.total
    && FromChunks(s.fragments, world.chunks(s.Key()))
  }

  ghost predicate Sound(world: World, m: Memory) {
    && (forall k :: k in m.sets ==> SoundSet(world, k, m.sets[k]))
    && (forall key :: key in m.rescue ==> FromChunks(m.rescue[key], world.chunks(key)))
  }

  lemma {:induction false} JoinOfChunks(pieces: Pieces, list: seq<bytes>)
    requires FromChunks(pieces, list) && Complete(pieces, |list|)
    ensures JoinPieces(pieces, |list|) == Join(list)
  {
    assert seq(|list|, i requires 0 <= i < |list| => pieces[i]) == list;
  }

  lemma StoreKeepsSound(world: World, m: Memory, x: Piece, now: real)
    requires Sound(world, m) && x.fragId in m.sets
    requires m.sets[x.fragId].total == x.total
    requires x.index < x.total && x.data == world.chunks(m.sets[x.fragId].Key())[x.index]
    ensures Sound(world, StorePiece(m, x, now))
    ensures StorePiece(m, x, now).sets[x.fragId].Key() == m.sets[x.fragId].Key()
  {
    var stored := StorePiece(m, x, now);
    assert SoundSet(world, x.fragId, stored.sets[x.fragId]);
    forall k | k in stored.sets
      ensures SoundSet(world, k, stored.sets[k])
    {
      assert k == x.fragId || stored.sets[k] == m.sets[k];
    }
  }

  lemma FullSetIsExact(world: World, fragId: bytes, s: FragmentSet)
    requires SoundSet(world, fragId, s) && |s.fragments| == s.total
    ensures Complete(s.fragments, s.total)
    ensures JoinPieces(s.fragments, s.total) == Join(world.chunks(s.Key()))
  {
    CompleteCounted(s.fragments, s.total);
    JoinOfChunks(s.fragments, world.chunks(s.Key()));
  }

  lemma AddKeepsSound(world: World, m: Memory, x: Piece, now: real)
    requires Sound(world, m) && x.fragId in m.sets
    requires m.sets[x.fragId].total == x.total
    requires x.index < x.total && x.data == world.chunks(m.sets[x.fragId].Key())[x.index]
    ensures Sound(world, AddPiece(m, x, now).0)
    ensures AddPiece(m, x, now).1 != Broken
    ensures AddPiece(m, x, now).1.Completed? ==>
              AddPiece(m, x, now).1.joined == Join(world.chunks(m.sets[x.fragId].Key()))
  {
    if Fits(m, x) {
      StoreKeepsSound(world, m, x, now);
      var s := StorePiece(m, x, now).sets[x.fragId];
      if |s.fragments| == x.total {
        FullSetIsExact(world, x.fragId, s);
      }
    }
  }

  lemma HandleKeepsSound(world: World, m: Memory, sender: bytes, x: Piece, created: real, touched: real)
    requires Sound(world, m) && HonestPiece(world, sender, x)
    ensures
      var (after, outcome) := HandlePiece(m, sender, x, created, touched);
      && Sound(world, after)
      && outcome != Broken
      && (outcome.Completed? ==> outcome.joined == Join(world.chunks(RescueKey(sender, x.total, x.originalType))))
  {
    var key := RescueKey(sender, x.total, x.originalType);
    if x.fragId in m.sets {
      var s := m.sets[x.fragId];
      if s.total == x.total && s.originalType == x.originalType {
        assert s.Key() == key;
        AddKeepsSound(world, m, x, touched);
      }
    } else if |m.sets| < MAX_ACTIVE_FRAGMENT_SETS {
      var started := OpenSet(m, x.fragId, key, created);
      assert SoundSet(world, x.fragId, started.sets[x.fragId]);
      AddKeepsSound(world, started, x, touched);
    }
  }

  lemma ExpireSetKeepsSound(world: World, m: Memory, fragId: bytes, now: real)
    requires Sound(world, m) && fragId in m.sets
    ensures Sound(world, ExpireSet(m, fragId, now))
  {
    var s := m.sets[fragId];
    if WorthRescuing(s) {
      var existing := if s.Key() in m.rescue then m.rescue[s.Key()] else map[];
      assert SoundSet(world, fragId, s);
      MergeFromChunks(existing, s.fragments, world.chunks(s.Key()));
    }
  }

  lemma MergeFromChunks(a: Pieces, b: Pieces, list: seq<bytes>)
    requires FromChunks(a, list) && FromChunks(b, list)
    ensures FromChunks(a + b, list)
  {
  }

  lemma {:induction false} ExpireSetsKeepsSound(world: World, m: Memory, order: seq<bytes>, now: real)
    requires Sound(world, m)
    ensures Sound(world, ExpireSets(m, order, now))
    decreases |order|
  {
    if order != [] {
      var before := order[..|order| - 1];
      ExpireSetsKeepsSound(world, m, before, now);
      var last := order[|order| - 1];
      if last in ExpireSets(m, before, now).sets {
        ExpireSetKeepsSound(world, ExpireSets(m, before, now), last, now);
      }
    }
  }

  lemma SweepKeepsSound(world: World, m: Memory, after: Memory, order: seq<bytes>, now: real, persistent: bool)
    requires Sound(world, m) && Swept(m, after, order, now, persistent)
    ensures Sound(world, after)
  {
    ExpireSetsKeepsSound(world, DropStale(m, now), order, now);
  }

  lemma StepKeepsSound(world: World, m: Memory, e: Event, after: Memory, outcome: Outcome, persistent: bool)
    requires Sound(world, m) && Honest(world, e) && Step(m, e, after, outcome, persistent)
    ensures Sound(world, after)
    ensures ExactOutcome(world, e, outcome)
  {
    match e
    case Arrive(sender, payload, created, touched) =>
      if Considered(payload) {
        HandleKeepsSound(world, m, sender, DecodePiece(payload).value, created, touched);
      }
    case Sweep(now, order) =>
      SweepKeepsSound(world, m, after, order, now, persistent);
  }

  /** A completed reassembly is the whole string of its key; the join never raises. */
  ghost predicate ExactOutcome(world: World, e: Event, outcome: Outcome) {
    && outcome != Broken
    && (outcome.Completed? ==>
          && e.Arrive? && DecodePiece(e.payload).Some?
          && var x := DecodePiece(e.payload).value;
             outcome.joined == Join(world.chunks(RescueKey(e.sender, x.total, x.originalType))))
  }

  /** Over every run in which each fragment id has one sender and all fragments of one key are chunks of one string,
      every set and every rescue entry holds only correct chunks, and every completed reassembly, even one that mixes
      inherited with fresh pieces, is exactly that string. */
  lemma {:induction false} RunsReassembleExactly(
    world: World, states: seq<Memory>, events: seq<Event>, outcomes: seq<Outcome>, persistent: bool, n: nat)
    requires IsRun(states, events, outcomes, persistent) && Sound(world, states[0])
    requires forall i :: 0 <= i < |events| ==> Honest(world, events[i])
    requires n < |states|
    ensures Sound(world, states[n])
    ensures forall i :: 0 <= i < n ==> ExactOutcome(world, events[i], outcomes[i])
  {
    if n > 0 {
      RunsReassembleExactly(world, states, events, outcomes, persistent, n - 1);
      assert Step(states[n - 1], events[n - 1], states[n], outcomes[n - 1], persistent);
      StepKeepsSound(world, states[n - 1], events[n - 1], states[n], outcomes[n - 1], persistent);
    }
  }
}
