/** The rescue cache and the attempt counters, in the source's own numbers. */
module RescueRules {
  import opened Bytes
  import opened Fragmentation
  import opened Sums
  import opened Reassembly
  import opened Attempts
  import opened Timing

  // ----- What is looked at, and what is inherited -----

  /** A fragment is ignored if it is too short, announces more than 256 fragments, or is empty; so is one that would
      open a 65th set. */
  lemma Ignored(m: Memory, sender: bytes, payload: bytes, created: real, touched: real)
    requires
      || |payload| < 13 || FromBigEndian(payload[10..12]) > 256 || |payload| == 13
      || (payload[..8] !in m.sets && |m.sets| >= 64)
    ensures Handle(m, sender, payload, created, touched) == (m, Waiting)
  {
  }

  /** Storing a piece sets the set's clock and leaves attempts alone. */
  lemma PieceStored(m: Memory, x: Piece, now: real)
    requires x.fragId in m.sets
    ensures
      var after := AddPiece(m, x, now).0;
      && after.attempts == m.attempts
      && (x.fragId in after.sets ==>
            after.sets[x.fragId].lastFragmentMs == now && after.sets[x.fragId].attempt == m.sets[x.fragId].attempt)
  {
    if Fits(m, x) {
      var stored := StorePiece(m, x, now);
      assert HasKey(stored.sets[x.fragId], stored.sets[x.fragId].Key());
    }
  }

  /** A piece costs its set if and only if the set would exceed one MiB, or all sets together four. */
  lemma LostExactly(m: Memory, x: Piece, now: real)
    requires x.fragId in m.sets
    ensures
      var s := m.sets[x.fragId];
      var size := if x.index in s.fragments then |s.fragments[x.index]| else 0;
      AddPiece(m, x, now) == (RemoveSet(m, x.fragId), Waiting)
      <==> s.cumulativeBytes - size + |x.data| > 1_048_576 || m.globalBytes - size + |x.data| > 4_194_304
  {
    if Fits(m, x) {
      assert x.fragId in StorePiece(m, x, now).sets && x.fragId !in RemoveSet(m, x.fragId).sets;
    }
  }

  /** Any other fragment changes its set: it leaves, or its clock shows when this fragment came. */
  lemma Accepted(m: Memory, sender: bytes, x: Piece, created: real, touched: real)
    requires x.fragId in m.sets || |m.sets| < 64
    ensures
      var after := HandlePiece(m, sender, x, created, touched).0;
      x.fragId in after.sets ==> after.sets[x.fragId].lastFragmentMs == touched
  {
    if x.fragId in m.sets {
      PieceStored(m, x, touched);
    } else {
      PieceStored(OpenSet(m, x.fragId, RescueKey(sender, x.total, x.originalType), created), x, touched);
    }
  }

  /** A new set starts from the rescue entry of its key exactly when that is less than an hour old. */
  lemma InheritedExactly(m: Memory, key: RescueKey, now: real)
    requires m.rescue.Keys == m.rescueTs.Keys
    ensures Inherited(m, key, now)
         == if key in m.rescue && now - m.rescueTs[key] < 3_600_000.0 then m.rescue[key] else map[]
  {
  }

  // ----- What a sweep leaves -----

  /** After a sweep an entry is at most an hour old, or it was renewed by a set that expired in this very sweep. */
  lemma SweepForgetsStale(m: Memory, after: Memory, order: seq<bytes>, now: real, persistent: bool, key: RescueKey)
    requires Swept(m, after, order, now, persistent) && m.rescue.Keys == m.rescueTs.Keys && key in after.rescue
    ensures key in after.rescueTs
    ensures after.rescueTs[key] == now || (key in m.rescueTs && after.rescueTs[key] == m.rescueTs[key]
                                           && now - m.rescueTs[key] <= 3_600_000.0)
  {
    ExpiryKeepsTimes(DropStale(m, now), order, now);
    ExpiryRenews(DropStale(m, now), order, now, key);
  }

  lemma {:induction false} ExpiryRenews(m: Memory, order: seq<bytes>, now: real, key: RescueKey)
    requires key in ExpireSets(m, order, now).rescueTs
    ensures ExpireSets(m, order, now).rescueTs[key] == now
         || (key in m.rescueTs && ExpireSets(m, order, now).rescueTs[key] == m.rescueTs[key])
    decreases |order|
  {
    if order != [] {
      var n := |order| - 1;
      if key in ExpireSets(m, order[..n], now).rescueTs {
        ExpiryRenews(m, order[..n], now, key);
      }
    }
  }

  /** A sweep that changed a cache kept on disk leaves at most 20 entries and four MiB. */
  lemma {:induction false} SweepLimits(m: Memory, after: Memory, order: seq<bytes>, now: real)
    requires Swept(m, after, order, now, true)
    requires ExpireSets(DropStale(m, now), order, now) != m
    ensures |after.rescue| <= 20 && RescueBytes(after.rescue) <= 4_194_304
  {
  }

  /** Trimming leaves a cache as it is exactly when that has at most 20 entries and four MiB. */
  lemma {:induction false} TrimmedExactly(m: Memory, after: Memory)
    requires Evicted(m, after) && m.rescue.Keys == m.rescueTs.Keys
    ensures after.rescue == m.rescue <==> |m.rescue| <= 20 && RescueBytes(m.rescue) <= 4_194_304
  {
    if !Oversized(m.rescue) {
      EvictionIdle(m, after);
    }
  }

  /** An entry that went, and that would have been too much beside those that stay. */
  ghost predicate OneTooMany(m: Memory, after: Memory, e: RescueKey) {
    && e in m.rescue && e !in after.rescue
    && (|after.rescue| >= 20 || RescueBytes(after.rescue) + PieceBytes(m.rescue[e]) > 4_194_304)
  }

  /** It removes no more than it has to. */
  lemma {:induction false} TrimmedSparingly(m: Memory, after: Memory) returns (e: RescueKey)
    requires Evicted(m, after) && after.rescue != m.rescue
    ensures OneTooMany(m, after, e)
  {
    e := SomeLast(m, after);
    OneMore(after.rescue, e, m.rescue[e]);
  }

  lemma {:induction false} SomeLast(m: Memory, after: Memory) returns (e: RescueKey)
    requires Evicted(m, after) && after.rescue != m.rescue
    ensures LastEvicted(m, after, e)
  {
    e :| LastEvicted(m, after, e);
  }

  lemma {:induction false} OneMore(rescue: map<RescueKey, Pieces>, e: RescueKey, pieces: Pieces)
    requires e !in rescue
    ensures |rescue[e := pieces]| == |rescue| + 1
    ensures RescueBytes(rescue[e := pieces]) == RescueBytes(rescue) + PieceBytes(pieces)
  {
    assert rescue[e := pieces].Keys == rescue.Keys + {e};
    SumInsert(rescue, PieceBytes, e, pieces);
  }

  // ----- Attempts -----

  /** Does this fragment open a set? */
  predicate Opens(m: Memory, sender: bytes, payload: bytes) {
    Considered(payload) && DecodePiece(payload).value.fragId !in m.sets && |m.sets| < 64
  }

  function KeyOfNew(sender: bytes, payload: bytes): RescueKey
    requires Considered(payload)
  {
    var x := DecodePiece(payload).value;
    RescueKey(sender, x.total, x.originalType)
  }

  function AttemptsOf(m: Memory, key: RescueKey): nat {
    if key in m.attempts then m.attempts[key] else 0
  }

  /** A fragment counts one attempt more for its key exactly when it opens a set, which is numbered with it. */
  lemma {:induction false} AttemptCounted(m: Memory, sender: bytes, payload: bytes, created: real, touched: real)
    ensures
      var after := Handle(m, sender, payload, created, touched).0;
      if Opens(m, sender, payload) then
        var key := KeyOfNew(sender, payload);
        var fragId := DecodePiece(payload).value.fragId;
        && after.attempts == m.attempts[key := AttemptsOf(m, key) + 1]
        && (fragId in after.sets ==> after.sets[fragId].attempt == AttemptsOf(m, key) + 1)
      else after.attempts == m.attempts
  {
    if Considered(payload) {
      var x := DecodePiece(payload).value;
      if x.fragId in m.sets {
        PieceStored(m, x, touched);
      } else if |m.sets| < 64 {
        PieceStored(OpenSet(m, x.fragId, RescueKey(sender, x.total, x.originalType), created), x, touched);
      }
    }
  }

  /** How many of the first n events open a set of the key. */
  ghost function Openings(states: seq<Memory>, events: seq<Event>, key: RescueKey, n: nat): nat
    requires n <= |events| <= |states|
  {
    if n == 0 then 0
    else
      var e := events[n - 1];
      Openings(states, events, key, n - 1)
      + if e.Arrive? && Opens(states[n - 1], e.sender, e.payload) && KeyOfNew(e.sender, e.payload) == key then 1 else 0
  }

  /** Between sweeps the counter of a key counts the sets that were opened for it. */
  lemma {:induction false} AttemptsCounted(
    states: seq<Memory>, events: seq<Event>, outcomes: seq<Outcome>, persistent: bool, key: RescueKey, n: nat)
    requires IsRun(states, events, outcomes, persistent) && n <= |events|
    requires forall j :: 0 <= j < n ==> events[j].Arrive?
    ensures AttemptsOf(states[n], key) == AttemptsOf(states[0], key) + Openings(states, events, key, n)
  {
    if n > 0 {
      AttemptsCounted(states, events, outcomes, persistent, key, n - 1);
      assert Step(states[n - 1], events[n - 1], states[n], outcomes[n - 1], persistent);
      CountedOnce(states[n - 1], events[n - 1], states[n], outcomes[n - 1], persistent, key);
    }
  }

  lemma CountedOnce(m: Memory, e: Event, after: Memory, outcome: Outcome, persistent: bool, key: RescueKey)
    requires Step(m, e, after, outcome, persistent) && e.Arrive?
    ensures AttemptsOf(after, key)
         == AttemptsOf(m, key) + if Opens(m, e.sender, e.payload) && KeyOfNew(e.sender, e.payload) == key then 1 else 0
  {
    AttemptCounted(m, e.sender, e.payload, e.created, e.touched);
  }

  /** A sweep forgets the counter of a key whose entry is over an hour old, and, unless it trims the cache, no other. */
  lemma SweepForgetsAttempts(m: Memory, after: Memory, order: seq<bytes>, now: real, persistent: bool, key: RescueKey)
    requires SweptUntrimmed(m, after, order, now, persistent)
    ensures AttemptsOf(after, key)
         == if key in m.rescueTs && now - m.rescueTs[key] > 3_600_000.0 then 0 else AttemptsOf(m, key)
  {
    var expired := ExpireSets(DropStale(m, now), order, now);
    ExpiryKeepsAttempts(DropStale(m, now), order, now);
    if after != expired {
      ExpiryKeepsTimes(DropStale(m, now), order, now);
      EvictionIdle(expired, after);
      NothingEvicted(expired, after);
    }
  }

  lemma NothingEvicted(m: Memory, after: Memory)
    requires Evicted(m, after) && after.rescue == m.rescue
    ensures after.attempts == m.attempts
  {
    assert m.rescue.Keys - after.rescue.Keys == {};
  }

  lemma {:induction false} ExpiryKeepsAttempts(m: Memory, order: seq<bytes>, now: real)
    ensures ExpireSets(m, order, now).attempts == m.attempts
    decreases |order|
  {
    if order != [] {
      ExpiryKeepsAttempts(m, order[..|order| - 1], now);
    }
  }
}
