/** From the sweep that rescues a partial transfer to the attempt that completes it, over one run of the manager. */
module Resumption {
  import opened Bytes
  import opened Fragmentation
  import opened Reassembly
  import opened Attempts
  import opened Transfers
  import opened FragmentManagers
  import opened Delivery

  // ----- The entry between the sweep and the attempt -----

  /** Expiring sets only adds to an entry, and only makes it newer. */
  lemma {:induction false} ExpiryKeepsEntry(
    m: Memory, order: seq<bytes>, now: real, key: RescueKey, indices: set<nat>, since: real)
    requires KeepsEntry(m, key, indices, since) && since <= now
    ensures KeepsEntry(ExpireSets(m, order, now), key, indices, since)
    decreases |order|
  {
    if order != [] {
      ExpiryKeepsEntry(m, order[..|order| - 1], now, key, indices, since);
    }
  }

  /** What a sweep within the hour leaves of an entry that it does not evict. */
  lemma SweepKeepsEntry(
    m: Memory, after: Memory, order: seq<bytes>, now: real, persistent: bool, key: RescueKey, indices: set<nat>,
    since: real)
    requires Swept(m, after, order, now, persistent) && key in after.rescue
    requires KeepsEntry(m, key, indices, since) && since <= now <= since + RESCUE_TTL_MS
    ensures KeepsEntry(after, key, indices, since)
  {
    ExpiryKeepsEntry(DropStale(m, now), order, now, key, indices, since);
  }

  predicate SameEntry(m: Memory, after: Memory, key: RescueKey) {
    && key in m.rescue && key in after.rescue && after.rescue[key] == m.rescue[key]
    && (key in m.rescueTs ==> key in after.rescueTs && after.rescueTs[key] == m.rescueTs[key])
  }

  /** `after` has the entries of `m`, or all but the one of a finished transfer. */
  predicate LosesAtMost(m: Memory, after: Memory, finished: RescueKey) {
    || (after.rescue == m.rescue && after.rescueTs == m.rescueTs)
    || (after.rescue == m.rescue - {finished}
        && after.rescueTs == if finished in m.rescue then m.rescueTs - {finished} else m.rescueTs)
  }

  lemma PieceLosesAtMost(m: Memory, x: Piece, now: real)
    requires x.fragId in m.sets
    ensures LosesAtMost(m, AddPiece(m, x, now).0, m.sets[x.fragId].Key())
  {
    if Fits(m, x) {
      assert StorePiece(m, x, now).sets[x.fragId].Key() == m.sets[x.fragId].Key();
    }
  }

  lemma LosingKeepsOthers(m: Memory, after: Memory, finished: RescueKey, key: RescueKey)
    requires LosesAtMost(m, after, finished) && key in after.rescue
    ensures SameEntry(m, after, key)
  {
  }

  lemma PieceKeepsEntry(m: Memory, x: Piece, now: real, key: RescueKey)
    requires x.fragId in m.sets && key in AddPiece(m, x, now).0.rescue
    ensures SameEntry(m, AddPiece(m, x, now).0, key)
  {
    PieceLosesAtMost(m, x, now);
    LosingKeepsOthers(m, AddPiece(m, x, now).0, m.sets[x.fragId].Key(), key);
  }

  /** A fragment leaves every entry as it is, unless it completes a transfer of its key. */
  lemma FragmentKeepsEntry(m: Memory, sender: bytes, payload: bytes, created: real, touched: real, key: RescueKey)
    requires key in Handle(m, sender, payload, created, touched).0.rescue
    ensures SameEntry(m, Handle(m, sender, payload, created, touched).0, key)
  {
    if Considered(payload) {
      var x := DecodePiece(payload).value;
      if x.fragId in m.sets {
        if key in AddPiece(m, x, touched).0.rescue {
          PieceKeepsEntry(m, x, touched, key);
        }
      } else if |m.sets| < MAX_ACTIVE_FRAGMENT_SETS {
        PieceKeepsEntry(OpenSet(m, x.fragId, RescueKey(sender, x.total, x.originalType), created), x, touched, key);
      }
    }
  }

  /** Any traffic, and sweeps from `since` on and within the hour. */
  predicate WithinTheHour(events: seq<Event>, since: real) {
    forall j :: 0 <= j < |events| && events[j].Sweep? ==> since <= events[j].now <= since + RESCUE_TTL_MS
  }

  /** As long as its key is never evicted or completed, an entry keeps its indices and its age over any run. */
  lemma {:induction false} RunKeepsEntry(
    states: seq<Memory>, events: seq<Event>, outcomes: seq<Outcome>, persistent: bool, key: RescueKey,
    indices: set<nat>, since: real, n: nat)
    requires IsRun(states, events, outcomes, persistent) && n < |states|
    requires KeepsEntry(states[0], key, indices, since) && WithinTheHour(events[..n], since)
    requires forall j :: 0 <= j <= n ==> key in states[j].rescue
    ensures KeepsEntry(states[n], key, indices, since)
  {
    if n > 0 {
      assert events[..n - 1] == events[..n][..n - 1];
      RunKeepsEntry(states, events, outcomes, persistent, key, indices, since, n - 1);
      assert Step(states[n - 1], events[n - 1], states[n], outcomes[n - 1], persistent);
      match events[n - 1]
      case Arrive(sender, payload, created, touched) =>
        FragmentKeepsEntry(states[n - 1], sender, payload, created, touched, key);
      case Sweep(now, order) =>
        assert events[..n][n - 1] == events[n - 1];
        SweepKeepsEntry(states[n - 1], states[n], order, now, persistent, key, indices, since);
    }
  }

  // ----- One run -----

  /** A run of a manager from the sweep of its first event to the end. */
  datatype Story = Story(
    states: seq<Memory>, events: seq<Event>, outcomes: seq<Outcome>, persistent: bool)
  {
    ghost predicate IsRun() {
      Attempts.IsRun(states, events, outcomes, persistent)
    }

    /** What happens from state b on, with the parts that belong to a transfer. */
    function From(b: nat, parts: seq<Part>): Trace
      requires b <= |states| && b <= |events| && b <= |outcomes|
    {
      Trace(states[b..], events[b..], outcomes[b..], persistent, parts)
    }
  }

  /** The first event is a sweep at which set k expires with at least three quarters of its fragments; then its entry
      stays, through any traffic and any sweeps within the hour, up to state b. */
  ghost predicate RescuesUntil(y: Story, k: bytes, b: nat) {
    && y.IsRun() && 0 < b <= |y.events| && y.events[0].Sweep?
    && Enumerates(y.events[0].order, y.states[0].sets.Keys)
    && k in y.states[0].sets && Expired(y.states[0].sets[k], y.events[0].now) && WorthRescuing(y.states[0].sets[k])
    && WithinTheHour(y.events[1..b], y.events[0].now)
    && forall j :: 0 < j <= b ==> y.states[0].sets[k].Key() in y.states[j].rescue
  }

  lemma {:induction false} TailIsRun(
    states: seq<Memory>, events: seq<Event>, outcomes: seq<Outcome>, persistent: bool, a: nat)
    requires IsRun(states, events, outcomes, persistent) && a <= |events|
    ensures IsRun(states[a..], events[a..], outcomes[a..], persistent)
  {
    forall i | 0 <= i < |events[a..]|
      ensures Step(states[a..][i], events[a..][i], states[a..][i + 1], outcomes[a..][i], persistent)
    {
      assert Step(states[a + i], events[a + i], states[a + i + 1], outcomes[a + i], persistent);
    }
  }

  lemma {:induction false} EntryKept(y: Story, key: RescueKey, indices: set<nat>, b: nat, since: real)
    requires y.IsRun() && 0 < b <= |y.events| && WithinTheHour(y.events[1..b], since)
    requires forall j :: 0 < j <= b ==> key in y.states[j].rescue
    requires KeepsEntry(y.states[1], key, indices, since)
    ensures KeepsEntry(y.states[b], key, indices, since)
  {
    TailIsRun(y.states, y.events, y.outcomes, y.persistent, 1);
    assert y.events[1..][..b - 1] == y.events[1..b];
    assert forall j :: 0 <= j <= b - 1 ==> y.states[1..][j] == y.states[j + 1];
    RunKeepsEntry(y.states[1..], y.events[1..], y.outcomes[1..], y.persistent, key, indices, since, b - 1);
  }

  /** At state b the entry has every fragment of the expired set, only correct chunks, and is not older than the
      sweep. */
  lemma {:induction false} EntryAtAttempt(world: World, y: Story, k: bytes, b: nat)
    requires RescuesUntil(y, k, b) && Sound(world, y.states[0])
    requires forall j :: 0 <= j < |y.events| ==> Honest(world, y.events[j])
    ensures
      var s := y.states[0].sets[k];
      RescuedFrom(s, y.states[b], y.events[0].now, world.chunks(s.Key()))
  {
    var s := y.states[0].sets[k];
    assert Step(y.states[0], y.events[0], y.states[1], y.outcomes[0], y.persistent);
    ExpiredSetIsRescued(world, y.states[0], y.states[1], y.events[0].order, y.events[0].now, y.persistent, k);
    EntryKept(y, s.Key(), s.fragments.Keys, b, y.events[0].now);
    RunsReassembleExactly(world, y.states, y.events, y.outcomes, y.persistent, b);
  }

  /** Resume after a partial transfer, over one run: a set expires with at least three quarters of its fragments; its
      entry is not evicted; a new attempt starts within the hour, with any traffic and any sweeps before and during it.
      It returns nothing until the rescued and the new indices cover everything, then exactly the string that is sent,
      and then neither a set nor an entry of the key remains. */
  lemma {:induction false} ExpireThenComplete(
    world: World, y: Story, k: bytes, b: nat, parts: seq<Part>, t: Transfer, inherited: Pieces, bound: nat, n: nat)
    requires RescuesUntil(y, k, b) && Sound(world, y.states[0])
    requires forall j :: 0 <= j < |y.events| ==> Honest(world, y.events[j])
    requires t.Key() == y.states[0].sets[k].Key() && t.list == world.chunks(t.Key())
    requires Begins(y.From(b, parts), t, inherited, bound)
    requires y.events[b].created - y.events[0].now < RESCUE_TTL_MS
    requires 0 < n <= |parts| && MissingBefore(y.From(b, parts), t, inherited, n)
    ensures y.states[0].sets[k].fragments.Keys <= inherited.Keys
    ensures
      if NothingMissing(y.From(b, parts), t, inherited, n)
      then y.outcomes[b + n - 1] == Completed(Join(t.list)) && Cleared(y.states[b + n], t.Key())
      else parts[n - 1].Own? ==> y.outcomes[b + n - 1] == Waiting
  {
    EntryAtAttempt(world, y, k, b);
    ResumeCompletes(y.states[0].sets[k], y.events[0].now, y.From(b, parts), t, inherited, bound, n);
  }
}
