/** The fragment manager's counters are exact and its caps hold, whatever happens. */
module Conservation {
  import opened Bytes
  import opened Fragmentation
  import opened Sums
  import opened Reassembly

  lemma PieceBytesNonNegative(pieces: Pieces)
    ensures 0 <= PieceBytes(pieces)
  {
    SumTail(pieces, Length);
  }

  lemma CountersNonNegative(m: Memory)
    requires Consistent(m)
    ensures forall k :: k in m.sets ==> 0 <= m.sets[k].cumulativeBytes
    ensures 0 <= m.globalBytes
  {
    forall k | k in m.sets
      ensures 0 <= m.sets[k].cumulativeBytes
    {
      PieceBytesNonNegative(m.sets[k].fragments);
    }
    SumTail(m.sets, Cumulative);
  }

  /** Counters exact, caps aside: what holds in the middle of a call, when an inheriting set may be over a cap. */
  ghost predicate Exact(m: Memory) {
    && (forall k :: k in m.sets ==> Counted(m.sets[k]))
    && m.globalBytes == SetBytes(m.sets)
  }

  lemma RemoveCounts(m: Memory, fragId: bytes)
    requires Exact(m)
    ensures Exact(RemoveSet(m, fragId))
  {
    if fragId in m.sets {
      SumPick(m.sets, Cumulative, fragId);
    }
  }

  lemma StoreCounts(m: Memory, x: Piece, now: real)
    requires Exact(m) && x.fragId in m.sets
    ensures Exact(StorePiece(m, x, now))
    ensures StorePiece(m, x, now).globalBytes >= 0
    ensures StorePiece(m, x, now).sets[x.fragId].cumulativeBytes >= 0
  {
    var s := m.sets[x.fragId];
    var stored := StorePiece(m, x, now);
    SumInsert(s.fragments, Length, x.index, x.data);
    SumInsert(m.sets, Cumulative, x.fragId, stored.sets[x.fragId]);
    forall k | k in stored.sets
      ensures Counted(stored.sets[k]) && 0 <= stored.sets[k].cumulativeBytes
    {
      PieceBytesNonNegative(stored.sets[k].fragments);
    }
    SumTail(stored.sets, Cumulative);
  }

  lemma OpenCounts(m: Memory, fragId: bytes, key: RescueKey, now: real)
    requires Exact(m) && fragId !in m.sets
    ensures Exact(OpenSet(m, fragId, key, now))
  {
    SumInsert(m.sets, Cumulative, fragId, OpenSet(m, fragId, key, now).sets[fragId]);
  }

  lemma OpenNonNegative(m: Memory, fragId: bytes, key: RescueKey, now: real)
    requires Consistent(m)
    ensures forall k :: k in OpenSet(m, fragId, key, now).sets ==>
              0 <= OpenSet(m, fragId, key, now).sets[k].cumulativeBytes
  {
    CountersNonNegative(m);
    PieceBytesNonNegative(Inherited(m, key, now));
  }

  lemma {:induction false} SubsetSize<K>(small: set<K>, large: set<K>)
    requires small <= large
    ensures |small| <= |large|
  {
    if small != {} {
      var k :| k in small;
      SubsetSize(small - {k}, large - {k});
    }
  }

  lemma FinishKeepsConsistent(m: Memory, key: RescueKey)
    requires Consistent(m)
    ensures Consistent(Finish(m, key))
  {
    CountersNonNegative(m);
    SumSubmap(Finish(m, key).sets, m.sets, Cumulative);
    SubsetSize(Finish(m, key).sets.Keys, m.sets.Keys);
  }

  lemma RemoveKeepsConsistent(m: Memory, fragId: bytes)
    requires Consistent(m)
    ensures Consistent(RemoveSet(m, fragId))
  {
    RemoveCounts(m, fragId);
    CountersNonNegative(m);
    SumSubmap(RemoveSet(m, fragId).sets, m.sets, Cumulative);
    SubsetSize(RemoveSet(m, fragId).sets.Keys, m.sets.Keys);
  }

  /** What a set being filled may look like inside a call: exact counters, and everything but this set within caps. */
  ghost predicate AlmostConsistent(m: Memory, fragId: bytes) {
    Exact(m) && fragId in m.sets && Consistent(RemoveSet(m, fragId)) && |m.sets| <= MAX_ACTIVE_FRAGMENT_SETS
  }

  lemma AddKeepsConsistent(m: Memory, x: Piece, now: real)
    requires AlmostConsistent(m, x.fragId)
    ensures Consistent(AddPiece(m, x, now).0)
  {
    if Fits(m, x) {
      var stored := StorePiece(m, x, now);
      StoreCounts(m, x, now);
      assert stored.sets.Keys == m.sets.Keys;
      forall k | k in stored.sets
        ensures stored.sets[k].cumulativeBytes <= MAX_FRAGMENT_TOTAL_BYTES
      {
        if k != x.fragId {
          assert RemoveSet(m, x.fragId).sets[k] == m.sets[k];
        }
      }
      assert Consistent(stored);
      FinishKeepsConsistent(stored, stored.sets[x.fragId].Key());
    }
  }

  lemma OpenAdds(m: Memory, fragId: bytes, key: RescueKey, now: real)
    requires fragId !in m.sets
    ensures OpenSet(m, fragId, key, now).sets - {fragId} == m.sets
    ensures |OpenSet(m, fragId, key, now).sets| == |m.sets| + 1
  {
    AddKey(m.sets, fragId, OpenSet(m, fragId, key, now).sets[fragId]);
  }

  lemma AddKey<K, V>(m: map<K, V>, key: K, value: V)
    requires key !in m
    ensures m[key := value] - {key} == m
    ensures |m[key := value]| == |m| + 1
  {
    assert m[key := value].Keys == m.Keys + {key};
  }

  lemma OpenAlmostConsistent(m: Memory, fragId: bytes, key: RescueKey, now: real)
    requires Consistent(m) && fragId !in m.sets && |m.sets| < MAX_ACTIVE_FRAGMENT_SETS
    ensures AlmostConsistent(OpenSet(m, fragId, key, now), fragId)
  {
    OpenCounts(m, fragId, key, now);
    OpenAdds(m, fragId, key, now);
  }

  lemma HandlePieceKeepsConsistent(m: Memory, sender: bytes, x: Piece, created: real, touched: real)
    requires Consistent(m)
    ensures Consistent(HandlePiece(m, sender, x, created, touched).0)
  {
    if x.fragId in m.sets {
      RemoveKeepsConsistent(m, x.fragId);
      AddKeepsConsistent(m, x, touched);
    } else if |m.sets| < MAX_ACTIVE_FRAGMENT_SETS {
      var key := RescueKey(sender, x.total, x.originalType);
      OpenAlmostConsistent(m, x.fragId, key, created);
      AddKeepsConsistent(OpenSet(m, x.fragId, key, created), x, touched);
    }
  }

  /** Handling any fragment whatsoever keeps every counter exact and every cap, although an inherited set may
      exceed a cap in the middle of the call. */
  lemma HandleKeepsConsistent(m: Memory, sender: bytes, payload: bytes, created: real, touched: real)
    requires Consistent(m)
    ensures Consistent(Handle(m, sender, payload, created, touched).0)
  {
    if DecodePiece(payload).Some? {
      HandlePieceKeepsConsistent(m, sender, DecodePiece(payload).value, created, touched);
    }
  }

  lemma DropStaleKeepsConsistent(m: Memory, now: real)
    requires Consistent(m)
    ensures Consistent(DropStale(m, now))
  {
  }

  lemma NothingStale(m: Memory, now: real)
    requires forall k :: k in m.rescueTs ==> now - m.rescueTs[k] <= RESCUE_TTL_MS
    ensures DropStale(m, now) == m
  {
    assert (set k | k in m.rescueTs && now - m.rescueTs[k] > RESCUE_TTL_MS) == {};
    assert m.rescue - {} == m.rescue && m.rescueTs - {} == m.rescueTs && m.attempts - {} == m.attempts;
  }

  lemma ExpireSetKeepsConsistent(m: Memory, fragId: bytes, now: real)
    requires Consistent(m) && fragId in m.sets
    ensures Consistent(ExpireSet(m, fragId, now))
  {
    RemoveKeepsConsistent(m, fragId);
  }

  lemma {:induction false} ExpireSetsKeepsConsistent(m: Memory, order: seq<bytes>, now: real)
    requires Consistent(m)
    ensures Consistent(ExpireSets(m, order, now))
    decreases |order|
  {
    if order != [] {
      var before := order[..|order| - 1];
      ExpireSetsKeepsConsistent(m, before, now);
      var last := order[|order| - 1];
      if last in ExpireSets(m, before, now).sets {
        ExpireSetKeepsConsistent(ExpireSets(m, before, now), last, now);
      }
    }
  }

  /** A sweep keeps them too. */
  lemma SweepKeepsConsistent(m: Memory, after: Memory, order: seq<bytes>, now: real, persistent: bool)
    requires Consistent(m) && Swept(m, after, order, now, persistent)
    ensures Consistent(after)
  {
    DropStaleKeepsConsistent(m, now);
    ExpireSetsKeepsConsistent(DropStale(m, now), order, now);
  }

  // ----- Evicting from the rescue cache -----

  /** Part of `before` has been evicted, oldest first. */
  ghost predicate Trimmed(before: Memory, m: Memory) {
    && m.sets == before.sets && m.globalBytes == before.globalBytes
    && m.rescue.Keys <= before.rescue.Keys && before.rescue.Keys == before.rescueTs.Keys
    && m.rescue == (map k | k in m.rescue.Keys && k in before.rescue :: before.rescue[k])
    && m.rescueTs == (map k | k in m.rescue.Keys && k in before.rescueTs :: before.rescueTs[k])
    && m.attempts == before.attempts - (before.rescue.Keys - m.rescue.Keys)
    && (forall k, e :: k in m.rescue && e in before.rescue && e !in m.rescue ==>
          before.rescueTs[e] <= before.rescueTs[k])
  }

  /** The cache without its entry for `key`. */
  function Without(m: Memory, key: RescueKey): Memory {
    m.(rescue := m.rescue - {key}, rescueTs := m.rescueTs - {key}, attempts := m.attempts - {key})
  }

  lemma TrimOneMore(before: Memory, m: Memory, oldest: RescueKey)
    requires Trimmed(before, m) && m.rescue.Keys == m.rescueTs.Keys
    requires oldest in m.rescueTs && forall k :: k in m.rescueTs ==> m.rescueTs[oldest] <= m.rescueTs[k]
    ensures Trimmed(before, Without(m, oldest))
  {
    var next := Without(m, oldest);
    assert before.rescue.Keys - next.rescue.Keys == (before.rescue.Keys - m.rescue.Keys) + {oldest};
    TrimmedTimes(before, m, oldest);
  }

  lemma TrimmedTimes(before: Memory, m: Memory, oldest: RescueKey)
    requires Trimmed(before, m) && m.rescue.Keys == m.rescueTs.Keys
    requires oldest in m.rescueTs && forall k :: k in m.rescueTs ==> m.rescueTs[oldest] <= m.rescueTs[k]
    ensures forall k :: k in m.rescue ==> m.rescueTs[k] == before.rescueTs[k]
    ensures forall k :: k in before.rescue && k !in Without(m, oldest).rescue ==>
              before.rescueTs[k] <= before.rescueTs[oldest]
  {
  }

  /** Evicting the oldest entry of an oversized cache is one more step towards what Evicted promises. */
  lemma EvictOneMore(before: Memory, m: Memory, oldest: RescueKey)
    requires Trimmed(before, m) && m.rescue.Keys == m.rescueTs.Keys && Oversized(m.rescue)
    requires oldest in m.rescueTs && forall k :: k in m.rescueTs ==> m.rescueTs[oldest] <= m.rescueTs[k]
    ensures Trimmed(before, Without(m, oldest))
    ensures LastEvicted(before, Without(m, oldest), oldest)
    ensures Without(m, oldest).rescue != before.rescue
  {
    TrimOneMore(before, m, oldest);
    TrimmedTimes(before, m, oldest);
    assert m.rescue == Without(m, oldest).rescue[oldest := before.rescue[oldest]];
    assert oldest in before.rescue && oldest !in Without(m, oldest).rescue;
  }

  lemma NothingTrimmed(m: Memory)
    requires m.rescue.Keys == m.rescueTs.Keys
    ensures Trimmed(m, m)
  {
    assert m.rescue.Keys - m.rescue.Keys == {};
    assert m.attempts - {} == m.attempts;
  }

  /** How far an eviction loop has come. */
  ghost predicate Evicting(before: Memory, m: Memory, evicted: bool, last: RescueKey) {
    && Trimmed(before, m) && m.rescue.Keys == m.rescueTs.Keys
    && (if evicted then m.rescue != before.rescue && LastEvicted(before, m, last) else m.rescue == before.rescue)
  }

  lemma EvictingEnds(before: Memory, m: Memory, evicted: bool, last: RescueKey)
    requires Consistent(before) && Evicting(before, m, evicted, last)
    requires !Oversized(m.rescue)
    ensures Evicted(before, m) && Consistent(m)
  {
  }

  lemma EmptyCacheFits()
    ensures !Oversized(map[])
  {
  }

  lemma {:induction false} OldestExists<K>(ts: map<K, real>)
    requires ts != map[]
    ensures exists k :: k in ts && forall j :: j in ts ==> ts[k] <= ts[j]
    decreases ts.Keys
  {
    var k :| k in ts;
    var rest := ts - {k};
    if rest != map[] {
      OldestExists(rest);
      var least :| least in rest && forall j :: j in rest ==> rest[least] <= rest[j];
      var best := if ts[k] <= ts[least] then k else least;
      assert best in ts && forall j :: j in ts ==> ts[best] <= ts[j] by {
        forall j | j in ts
          ensures ts[best] <= ts[j]
        {
          assert j == k || j in rest;
        }
      }
    } else {
      assert ts.Keys == rest.Keys + {k};
    }
  }
}
