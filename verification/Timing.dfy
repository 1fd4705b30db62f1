/** When a set expires, and what is kept of it: in milliseconds, and in three quarters of the fragments. */
module Timing {
  import opened Bytes
  import opened Seqs
  import opened Sums
  import opened Reassembly
  import opened Conservation
  import opened Transfers
  import opened FragmentManagers

  /** 50 ms for every fragment of the transfer, and at least 30 s. */
  function PatienceMs(total: nat): real {
    if 50.0 * total as real > 30_000.0 then 50.0 * total as real else 30_000.0
  }

  lemma ExpiredExactly(s: FragmentSet, now: real)
    ensures Expired(s, now) <==> now - s.lastFragmentMs > PatienceMs(s.total)
  {
  }

  // ----- One sweep -----

  /** What the last set of the order does to the sets. */
  lemma {:induction false} ExpireLast(m: Memory, order: seq<bytes>, now: real, k: bytes)
    requires order != []
    ensures
      var before, after := ExpireSets(m, order[..|order| - 1], now), ExpireSets(m, order, now);
      var last := order[|order| - 1];
      && (k in after.sets <==> k in before.sets && !(k == last && Expired(before.sets[k], now)))
      && (k in after.sets ==> after.sets[k] == before.sets[k])
  {
  }

  lemma {:induction false} ExpiryRemovesExactly(m: Memory, order: seq<bytes>, now: real, k: bytes)
    requires k in m.sets
    ensures
      var after := ExpireSets(m, order, now);
      && (k in after.sets <==> !(k in order && Expired(m.sets[k], now)))
      && (k in after.sets ==> after.sets[k] == m.sets[k])
    decreases |order|
  {
    if order != [] {
      var n := |order| - 1;
      ExpiryRemovesExactly(m, order[..n], now, k);
      ExpireLast(m, order, now, k);
      SplitLast(order);
    }
  }

  /** Every set outlasts a sweep exactly when its last fragment came at most 50 ms per fragment and 30 s before. */
  lemma SweepRemovesExactly(m: Memory, after: Memory, order: seq<bytes>, now: real, persistent: bool, k: bytes)
    requires Swept(m, after, order, now, persistent) && Enumerates(order, m.sets.Keys) && k in m.sets
    ensures k in after.sets <==> now - m.sets[k].lastFragmentMs <= PatienceMs(m.sets[k].total)
    ensures k in after.sets ==> after.sets[k] == m.sets[k]
  {
    ExpiredExactly(m.sets[k], now);
    ExpiryRemovesExactly(DropStale(m, now), order, now, k);
  }

  /** At least three quarters of the fragments are there. */
  predicate MostlyThere(s: FragmentSet) {
    s.sender != [] && 4 * |s.fragments| >= 3 * s.total
  }

  lemma WorthExactly(s: FragmentSet)
    ensures WorthRescuing(s) <==> MostlyThere(s)
  {
    assert s.total as real * RESCUE_MIN_FRACTION == (3 * s.total) as real / 4.0;
  }

  /** No other set of the same key expires in the sweep. */
  predicate ExpiresAlone(m: Memory, k: bytes, now: real)
    requires k in m.sets
  {
    forall j :: j in m.sets && j != k && m.sets[j].Key() == m.sets[k].Key() ==> !Expired(m.sets[j], now)
  }

  /** The entry of a key after set k may have expired: k's fragments over what was there, or what was there. */
  predicate EntryAfter(m: Memory, after: Memory, s: FragmentSet, rescued: bool, now: real) {
    var key := s.Key();
    if rescued then
      && key in after.rescue && key in after.rescueTs && after.rescueTs[key] == now
      && after.rescue[key] == (if key in m.rescue then m.rescue[key] else map[]) + s.fragments
    else
      && (key in after.rescue <==> key in m.rescue)
      && (key in m.rescue ==> after.rescue[key] == m.rescue[key])
  }

  /** One set leaves: its own entry changes as it deserves, every other entry stays. */
  lemma ExpireOne(m: Memory, j: bytes, now: real, key: RescueKey)
    requires j in m.sets
    ensures EntryAfter(m, ExpireSet(m, j, now), m.sets[j], MostlyThere(m.sets[j]), now)
    ensures key != m.sets[j].Key() ==> SameRescue(m, ExpireSet(m, j, now), key)
  {
    WorthExactly(m.sets[j]);
  }

  predicate SameRescue(m: Memory, after: Memory, key: RescueKey) {
    && (key in after.rescue <==> key in m.rescue) && (key in m.rescue ==> after.rescue[key] == m.rescue[key])
    && (key in after.rescueTs <==> key in m.rescueTs) && (key in m.rescueTs ==> after.rescueTs[key] == m.rescueTs[key])
  }

  lemma {:induction false} ExpiryRescuesExactly(m: Memory, order: seq<bytes>, now: real, k: bytes)
    requires k in m.sets && ExpiresAlone(m, k, now)
    requires forall i, j :: 0 <= i < j < |order| ==> order[i] != order[j]
    ensures
      var s := m.sets[k];
      EntryAfter(m, ExpireSets(m, order, now), s, k in order && Expired(s, now) && MostlyThere(s), now)
    decreases |order|
  {
    if order != [] {
      var n := |order| - 1;
      ExpiryRescuesExactly(m, order[..n], now, k);
      LastDecides(m, order, now, k);
    }
  }

  lemma {:induction false} LastDecides(m: Memory, order: seq<bytes>, now: real, k: bytes)
    requires k in m.sets && ExpiresAlone(m, k, now) && order != []
    requires forall i, j :: 0 <= i < j < |order| ==> order[i] != order[j]
    requires
      var s := m.sets[k];
      var rescued := k in order[..|order| - 1] && Expired(s, now) && MostlyThere(s);
      EntryAfter(m, ExpireSets(m, order[..|order| - 1], now), s, rescued, now)
    ensures
      var s := m.sets[k];
      EntryAfter(m, ExpireSets(m, order, now), s, k in order && Expired(s, now) && MostlyThere(s), now)
  {
    var n := |order| - 1;
    var before, last := ExpireSets(m, order[..n], now), order[n];
    SplitLast(order);
    ExpiryRemovesExactly(m, order[..n], now, k);
    if last in before.sets {
      ExpiryOnlyRemoves(m, order[..n], now, last);
      ExpireOne(before, last, now, m.sets[k].Key());
    }
  }

  lemma {:induction false} ExpiryOnlyRemoves(m: Memory, order: seq<bytes>, now: real, k: bytes)
    requires k in ExpireSets(m, order, now).sets
    ensures k in m.sets && m.sets[k] == ExpireSets(m, order, now).sets[k]
    decreases |order|
  {
    if order != [] {
      ExpiryOnlyRemoves(m, order[..|order| - 1], now, k);
    }
  }

  // ----- What remains after a sweep -----

  /** Trimming a cache within its limits does nothing. */
  lemma EvictionIdle(m: Memory, after: Memory)
    requires Evicted(m, after) && !Oversized(m.rescue) && m.rescue.Keys == m.rescueTs.Keys
    ensures after.rescue == m.rescue && after.rescueTs == m.rescueTs
  {
    if after.rescue != m.rescue {
      var e :| LastEvicted(m, after, e);
      WithEvicted(m, after, e);
      SmallerFits(after.rescue[e := m.rescue[e]], m.rescue);
    }
    assert after.rescue.Keys == m.rescueTs.Keys;
  }

  lemma WithEvicted(m: Memory, after: Memory, e: RescueKey)
    requires Evicted(m, after) && LastEvicted(m, after, e)
    ensures
      var more := after.rescue[e := m.rescue[e]];
      more.Keys <= m.rescue.Keys && forall k :: k in more ==> more[k] == m.rescue[k]
  {
    forall k | k in after.rescue
      ensures k in m.rescue && after.rescue[k] == m.rescue[k]
    {
    }
  }

  lemma SmallerFits(small: map<RescueKey, Pieces>, large: map<RescueKey, Pieces>)
    requires small.Keys <= large.Keys && forall k :: k in small ==> small[k] == large[k]
    requires !Oversized(large)
    ensures !Oversized(small)
  {
    SubsetSize(small.Keys, large.Keys);
    forall k | k in large
      ensures 0 <= PieceBytes(large[k])
    {
      PieceBytesNonNegative(large[k]);
    }
    SumSubmap(small, large, PieceBytes);
  }

  /** A set that expires leaves an entry if and only if at least three quarters of its fragments are there, unless the
      cache is trimmed: then its fragments lie over what the entry had; otherwise the entry stays as it was. */
  lemma {:induction false} SweepRescuesExactly(
    m: Memory, after: Memory, order: seq<bytes>, now: real, persistent: bool, k: bytes)
    requires Swept(m, after, order, now, persistent) && Enumerates(order, m.sets.Keys) && k in m.sets
    requires now - m.sets[k].lastFragmentMs > PatienceMs(m.sets[k].total) && ExpiresAlone(m, k, now)
    requires m.rescue.Keys == m.rescueTs.Keys
    requires persistent ==> !Oversized(ExpireSets(DropStale(m, now), order, now).rescue)
    ensures k !in after.sets
    ensures EntryAfter(DropStale(m, now), after, m.sets[k], MostlyThere(m.sets[k]), now)
  {
    ExpiredExactly(m.sets[k], now);
    SweepRemovesExactly(m, after, order, now, persistent, k);
    ExpiryRescuesExactly(DropStale(m, now), order, now, k);
    if after != ExpireSets(DropStale(m, now), order, now) {
      ExpiryKeepsTimes(DropStale(m, now), order, now);
      EvictionIdle(ExpireSets(DropStale(m, now), order, now), after);
    }
  }

  lemma {:induction false} ExpiryKeepsTimes(m: Memory, order: seq<bytes>, now: real)
    requires m.rescue.Keys == m.rescueTs.Keys
    ensures ExpireSets(m, order, now).rescue.Keys == ExpireSets(m, order, now).rescueTs.Keys
    decreases |order|
  {
    if order != [] {
      ExpiryKeepsTimes(m, order[..|order| - 1], now);
    }
  }

  /** A transfer that is not complete outlasts a sweep exactly when the sweep comes at most 30 s after its last
      fragment. */
  lemma {:induction false} TransferOutlastsExactly(
    r: Trace, t: Transfer, inherited: Pieces, bound: nat, n: nat, after: Memory, order: seq<bytes>, now: real)
    requires Begins(r, t, inherited, bound) && 0 < n <= |r.parts|
    requires MissingBefore(r, t, inherited, n) && !NothingMissing(r, t, inherited, n)
    requires Swept(r.states[n], after, order, now, r.persistent) && Enumerates(order, r.states[n].sets.Keys)
    ensures t.fragId in r.states[n].sets && r.states[n].sets[t.fragId].fragments == PiecesAfter(r, t, inherited, n)
    ensures t.fragId in after.sets <==> now - LastTouch(r.parts, r.events, n) <= 30_000.0
  {
    TransferCompletes(r, t, inherited, bound, n);
    CoveredIsComplete(inherited, t, Order(r, t, n));
    assert r.states[n].sets[t.fragId].total == t.Total();
    SweepRemovesExactly(r.states[n], after, order, now, r.persistent, t.fragId);
  }

  /** If it does not, an entry is left exactly if three quarters of the indices had been inherited or received. */
  lemma {:induction false} LateTransferRescuedExactly(
    r: Trace, t: Transfer, inherited: Pieces, bound: nat, n: nat, after: Memory, order: seq<bytes>, now: real)
    requires Begins(r, t, inherited, bound) && 0 < n <= |r.parts|
    requires MissingBefore(r, t, inherited, n) && !NothingMissing(r, t, inherited, n)
    requires t.sender != [] && now - LastTouch(r.parts, r.events, n) > 30_000.0
    requires SweptUntrimmed(r.states[n], after, order, now, r.persistent)
    requires t.fragId in r.states[n].sets && ExpiresAlone(r.states[n], t.fragId, now)
    requires t.Key() !in DropStale(r.states[n], now).rescue
    ensures t.fragId !in after.sets
    ensures t.Key() in after.rescue <==> 4 * |PiecesAfter(r, t, inherited, n)| >= 3 * t.Total()
    ensures t.Key() in after.rescue ==> after.rescue[t.Key()] == PiecesAfter(r, t, inherited, n)
  {
    TransferCompletes(r, t, inherited, bound, n);
    CoveredIsComplete(inherited, t, Order(r, t, n));
    HeldRescuedExactly(r.states[n], t, PiecesAfter(r, t, inherited, n), LastTouch(r.parts, r.events, n), after, order,
                       now, r.persistent);
  }

  /** A sweep after which the rescue cache did not have to be trimmed. */
  ghost predicate SweptUntrimmed(m: Memory, after: Memory, order: seq<bytes>, now: real, persistent: bool) {
    && Swept(m, after, order, now, persistent) && Enumerates(order, m.sets.Keys)
    && m.rescue.Keys == m.rescueTs.Keys
    && (persistent ==> !Oversized(ExpireSets(DropStale(m, now), order, now).rescue))
  }

  lemma HeldRescuedExactly(
    m: Memory, t: Transfer, pieces: Pieces, last: real, after: Memory, order: seq<bytes>, now: real, persistent: bool)
    requires Holds(m, t, pieces, last) && t.Carriable() && t.sender != [] && now - last > 30_000.0
    requires SweptUntrimmed(m, after, order, now, persistent) && ExpiresAlone(m, t.fragId, now)
    requires t.Key() !in DropStale(m, now).rescue
    ensures t.fragId !in after.sets
    ensures t.Key() in after.rescue <==> 4 * |pieces| >= 3 * t.Total()
    ensures t.Key() in after.rescue ==> after.rescue[t.Key()] == pieces
  {
    SweepRescuesExactly(m, after, order, now, persistent, t.fragId);
    NewEntry(DropStale(m, now), after, m.sets[t.fragId], MostlyThere(m.sets[t.fragId]), now);
  }

  lemma NewEntry(m: Memory, after: Memory, s: FragmentSet, rescued: bool, now: real)
    requires EntryAfter(m, after, s, rescued, now) && s.Key() !in m.rescue
    ensures s.Key() in after.rescue <==> rescued
    ensures rescued ==> after.rescue[s.Key()] == s.fragments
  {
    assert map[] + s.fragments == s.fragments;
  }
}
