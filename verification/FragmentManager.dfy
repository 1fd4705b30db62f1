/** The FragmentManager class of mesh/fragment_manager.py: state updated in place, proved against module Reassembly. */
module FragmentManagers {
  import opened Bytes
  import opened Packets
  import opened Fragmentation
  import opened Sums
  import opened Reassembly
  import opened Conservation

  datatype Reply = Returned(packet: Option<Packet>) | RaisedKeyError

  /** What the caller of handle_fragment sees of an outcome: the packet comes back with TTL 0, so it is not relayed. */
  function ReplyOf(o: Outcome, decode: bytes -> Option<Packet>): Reply {
    match o
    case Waiting => Returned(None)
    case Broken => RaisedKeyError
    case Completed(joined) =>
      var p := decode(joined);
      Returned(if p.Some? then Some(p.value.WithTtl(0)) else None)
  }

  /** Does `order` list exactly the keys, each once, as a dictionary iterates? */
  ghost predicate Enumerates<K(!new)>(order: seq<K>, keys: set<K>) {
    && (forall i, j :: 0 <= i < j < |order| ==> order[i] != order[j])
    && (forall k :: k in order <==> k in keys)
  }

  class FragmentManager {
    const decode: bytes -> Option<Packet>
    /** Is the rescue cache kept on disk? */
    const persistent: bool
    var sets: map<bytes, FragmentSet>
    var globalBytes: int
    var rescue: map<RescueKey, Pieces>
    var rescueTs: map<RescueKey, real>
    var attempts: map<RescueKey, nat>

    ghost function Mem(): Memory
      reads this
    {
      Memory(sets, globalBytes, rescue, rescueTs, attempts)
    }

    ghost predicate Valid()
      reads this
    {
      Consistent(Mem())
    }

    constructor (decode: bytes -> Option<Packet>, persistent: bool)
      ensures Valid() && Mem() == EMPTY
      ensures this.decode == decode && this.persistent == persistent
    {
      this.decode := decode;
      this.persistent := persistent;
      sets, globalBytes, rescue, rescueTs, attempts := map[], 0, map[], map[], map[];
    }

    /** _remove_set; the clamp at zero never acts on a consistent manager. */
    method Remove(fragId: bytes)
      requires globalBytes == SetBytes(sets)
      requires forall k :: k in sets ==> sets[k].cumulativeBytes >= 0
      modifies this`sets, this`globalBytes
      ensures Mem() == RemoveSet(old(Mem()), fragId)
      ensures globalBytes == SetBytes(sets)
    {
      if fragId in sets {
        var s := sets[fragId];
        SumPick(sets, Cumulative, fragId);
        SumTail(sets - {fragId}, Cumulative);
        sets := sets - {fragId};
        globalBytes := if globalBytes - s.cumulativeBytes > 0 then globalBytes - s.cumulativeBytes else 0;
      }
    }

    /** handle_fragment. */
    method HandleFragment(packet: Packet, created: real, touched: real) returns (reply: Reply)
      requires Valid()
      modifies this
      ensures Valid()
      ensures
        var (after, outcome) := Handle(old(Mem()), packet.sender, packet.payload, created, touched);
        Mem() == after && reply == ReplyOf(outcome, decode)
    {
      var decoded := DecodePiece(packet.payload);
      if decoded.None? {
        return Returned(None);
      }
      var x := decoded.value;
      if x.total > MAX_FRAGMENTS_PER_ID {
        return Returned(None);
      }
      if x.data == [] {
        return Returned(None);
      }
      HandlePieceKeepsConsistent(Mem(), packet.sender, x, created, touched);
      reply := AcceptPiece(x, packet.sender, created, touched);
    }

    method AcceptPiece(x: Piece, sender: bytes, created: real, touched: real) returns (reply: Reply)
      requires Valid()
      modifies this
      ensures
        var (after, outcome) := HandlePiece(old(Mem()), sender, x, created, touched);
        Mem() == after && reply == ReplyOf(outcome, decode)
    {
      CountersNonNegative(Mem());
      if x.fragId in sets {
        var s := sets[x.fragId];
        if s.total != x.total || s.originalType != x.originalType {
          Remove(x.fragId);
          return Returned(None);
        }
      } else {
        if |sets| >= MAX_ACTIVE_FRAGMENT_SETS {
          return Returned(None);
        }
        Open(x, sender, created);
      }
      reply := Add(x, touched);
    }

    /** The first fragment of an unknown id opens a set. */
    method Open(x: Piece, sender: bytes, now: real)
      requires Valid() && x.fragId !in sets
      modifies this`sets, this`globalBytes, this`attempts
      ensures Mem() == OpenSet(old(Mem()), x.fragId, RescueKey(sender, x.total, x.originalType), now)
      ensures Exact(Mem()) && forall k :: k in sets ==> sets[k].cumulativeBytes >= 0
    {
      var key := RescueKey(sender, x.total, x.originalType);
      ghost var before := Mem();
      var inherited, bytes := Inherit(key, now);
      var attempt := (if key in attempts then attempts[key] else 0) + 1;
      attempts := attempts[key := attempt];
      globalBytes := globalBytes + bytes;
      sets := sets[x.fragId := FragmentSet(x.originalType, x.total, now, now, sender, attempt, inherited, bytes)];
      assert Mem() == OpenSet(before, x.fragId, key, now);
      OpenCounts(before, x.fragId, key, now);
      OpenNonNegative(before, x.fragId, key, now);
    }

    /** The rescued pieces that a new set starts from, and their bytes. */
    method Inherit(key: RescueKey, now: real) returns (inherited: Pieces, bytes: int)
      ensures inherited == Inherited(Mem(), key, now) && bytes == PieceBytes(inherited)
    {
      inherited, bytes := map[], 0;
      if key in rescue {
        if now - (if key in rescueTs then rescueTs[key] else 0.0) < RESCUE_TTL_MS {
          inherited := rescue[key];
          bytes := SumLengths(inherited);
        }
      }
    }

    /** Caps, store, and completion. */
    method Add(x: Piece, now: real) returns (reply: Reply)
      requires x.fragId in sets && sets[x.fragId].total == x.total
      requires globalBytes == SetBytes(sets)
      requires forall k :: k in sets ==> Counted(sets[k]) && sets[k].cumulativeBytes >= 0
      modifies this
      ensures
        var (after, outcome) := AddPiece(old(Mem()), x, now);
        Mem() == after && reply == ReplyOf(outcome, decode)
    {
      var s := sets[x.fragId];
      var oldSize := if x.index in s.fragments then |s.fragments[x.index]| else 0;
      var newSetSize := s.cumulativeBytes - oldSize + |x.data|;
      if newSetSize > MAX_FRAGMENT_TOTAL_BYTES {
        Remove(x.fragId);
        return Returned(None);
      }
      var delta := |x.data| - oldSize;
      if globalBytes + delta > MAX_GLOBAL_FRAGMENT_BYTES {
        Remove(x.fragId);
        return Returned(None);
      }
      Store(x, now);
      reply := CompleteSet(sets[x.fragId]);
    }

    /** The piece goes into its set, new or in place of an earlier one; the clamp at zero never acts. */
    method Store(x: Piece, now: real)
      requires x.fragId in sets && globalBytes == SetBytes(sets)
      requires forall k :: k in sets ==> Counted(sets[k]) && sets[k].cumulativeBytes >= 0
      modifies this`sets, this`globalBytes
      ensures Mem() == StorePiece(old(Mem()), x, now)
      ensures globalBytes == SetBytes(sets)
      ensures forall k :: k in sets ==> sets[k].cumulativeBytes >= 0
    {
      StoreCounts(Mem(), x, now);
      var s := sets[x.fragId];
      var oldSize := if x.index in s.fragments then |s.fragments[x.index]| else 0;
      var delta := |x.data| - oldSize;
      sets := sets[x.fragId :=
        s.(fragments := s.fragments[x.index := x.data], cumulativeBytes := s.cumulativeBytes - oldSize + |x.data|,
           lastFragmentMs := now)];
      globalBytes := if globalBytes + delta > 0 then globalBytes + delta else 0;
    }

    /** The set after a piece was stored: waiting, complete, or with a gap behind the count. */
    method CompleteSet(s: FragmentSet) returns (reply: Reply)
      requires globalBytes == SetBytes(sets)
      requires forall k :: k in sets ==> sets[k].cumulativeBytes >= 0
      modifies this`sets, this`globalBytes, this`rescue, this`rescueTs
      ensures
        if |s.fragments| != s.total then Mem() == old(Mem()) && reply == Returned(None)
        else if !Complete(s.fragments, s.total) then Mem() == old(Mem()) && reply == RaisedKeyError
        else Mem() == Finish(old(Mem()), s.Key())
             && reply == ReplyOf(Completed(JoinPieces(s.fragments, s.total)), decode)
    {
      reply := Returned(None);
      if |s.fragments| == s.total {
        var joined := JoinAll(s.fragments, s.total);
        if joined.None? {
          return RaisedKeyError;
        }
        Purge(s.Key());
        var p := decode(joined.value);
        reply := Returned(if p.Some? then Some(p.value.WithTtl(0)) else None);
      }
    }

    /** The finished set, the stale sets of the same transfer and the rescue entry go. */
    method Purge(key: RescueKey)
      requires globalBytes == SetBytes(sets)
      requires forall k :: k in sets ==> sets[k].cumulativeBytes >= 0
      modifies this`sets, this`globalBytes, this`rescue, this`rescueTs
      ensures Mem() == Finish(old(Mem()), key)
    {
      var stale := set k | k in sets && HasKey(sets[k], key);
      ghost var before := sets;
      while stale != {}
        invariant stale == set k | k in sets && HasKey(sets[k], key)
        invariant sets == map k | k in before && (k in stale || !HasKey(before[k], key)) :: before[k]
        invariant globalBytes == SetBytes(sets)
        invariant rescue == old(rescue) && rescueTs == old(rescueTs) && attempts == old(attempts)
        decreases stale
      {
        var k :| k in stale;
        Remove(k);
        stale := stale - {k};
      }
      assert sets == map k | k in before && !HasKey(before[k], key) :: before[k];
      if key in rescue {
        rescue := rescue - {key};
        rescueTs := rescueTs - {key};
      } else {
        assert rescue - {key} == rescue;
      }
    }

    /** _cleanup_old; `dictOrder` is the order in which the dictionary of sets iterates. */
    method CleanupOld(now: real, dictOrder: seq<bytes>)
      requires Valid() && Enumerates(dictOrder, sets.Keys)
      modifies this
      ensures Valid()
      ensures Swept(old(Mem()), Mem(), dictOrder, now, persistent)
    {
      var anyStale := DropStaleEntries(now);
      var anyExpired := ExpireAll(now, dictOrder);
      if (anyStale || anyExpired) && persistent {
        var _ := EvictRescueIfNeeded();
      }
    }

    method DropStaleEntries(now: real) returns (any: bool)
      requires Valid()
      modifies this`rescue, this`rescueTs, this`attempts
      ensures Valid()
      ensures Mem() == DropStale(old(Mem()), now)
      ensures any <==> Mem() != old(Mem())
    {
      DropStaleKeepsConsistent(Mem(), now);
      var stale := set k | k in rescueTs && now - rescueTs[k] > RESCUE_TTL_MS;
      any := stale != {};
      if any {
        ghost var k :| k in stale;
        assert k !in rescueTs - stale;
      } else {
        assert forall k :: k in rescueTs ==> k !in stale;
        NothingStale(Mem(), now);
      }
      rescue := rescue - stale;
      rescueTs := rescueTs - stale;
      attempts := attempts - stale;
    }

    method ExpireAll(now: real, dictOrder: seq<bytes>) returns (any: bool)
      requires Valid() && Enumerates(dictOrder, sets.Keys)
      modifies this
      ensures Valid()
      ensures Mem() == ExpireSets(old(Mem()), dictOrder, now)
      ensures any <==> Mem() != old(Mem())
    {
      any := false;
      ghost var before := Mem();
      for i := 0 to |dictOrder|
        invariant Valid()
        invariant Mem() == ExpireSets(before, dictOrder[..i], now)
        invariant forall j :: i <= j < |dictOrder| ==> dictOrder[j] in sets
        invariant |sets| <= |before.sets|
        invariant if any then |sets| < |before.sets| else Mem() == before
      {
        var fragId := dictOrder[i];
        ExpireNext(before, dictOrder, i, now);
        if Expired(sets[fragId], now) {
          Expire(fragId, now);
          any := true;
        }
      }
      assert dictOrder[..|dictOrder|] == dictOrder;
    }

    method Expire(fragId: bytes, now: real)
      requires Valid() && fragId in sets
      modifies this
      ensures Valid()
      ensures Mem() == ExpireSet(old(Mem()), fragId, now)
      ensures sets == old(sets) - {fragId} && |sets| < |old(sets)|
    {
      ghost var before := Mem();
      CountersNonNegative(before);
      Rescue(sets[fragId], now);
      Remove(fragId);
      assert Mem() == ExpireSet(before, fragId, now);
      ExpireSetKeepsConsistent(before, fragId, now);
      WithoutOneIsSmaller(before.sets, fragId);
    }

    /** The rescue entry of an expired set's key, when the set is worth it. */
    method Rescue(s: FragmentSet, now: real)
      modifies this`rescue, this`rescueTs
      ensures
        if WorthRescuing(s) then
          && rescue == old(rescue)[s.Key() :=
               (if s.Key() in old(rescue) then old(rescue)[s.Key()] else map[]) + s.fragments]
          && rescueTs == old(rescueTs)[s.Key() := now]
        else rescue == old(rescue) && rescueTs == old(rescueTs)
    {
      var received := |s.fragments|;
      if |s.sender| > 0 {
        var key := s.Key();
        var existing := if key in rescue then rescue[key] else map[];
        var merged := existing + s.fragments;
        if received as real >= s.total as real * RESCUE_MIN_FRACTION {
          rescue := rescue[key := merged];
          rescueTs := rescueTs[key := now];
        }
      }
    }

    /** _rescue_bytes_total. */
    method RescueBytesTotal() returns (total: int)
      ensures total == RescueBytes(rescue)
    {
      total := 0;
      var rest := rescue;
      while rest != map[]
        invariant rest.Keys <= rescue.Keys && forall k :: k in rest ==> rest[k] == rescue[k]
        invariant total + RescueBytes(rest) == RescueBytes(rescue)
        decreases rest.Keys
      {
        var k :| k in rest;
        SumPick(rest, PieceBytes, k);
        var bytes := SumLengths(rest[k]);
        total := total + bytes;
        rest := rest - {k};
      }
    }

    /** _evict_rescue_if_needed: oldest entries first, ties broken either way. */
    method EvictRescueIfNeeded() returns (evicted: bool)
      requires Valid()
      modifies this`rescue, this`rescueTs, this`attempts
      ensures Valid()
      ensures Evicted(old(Mem()), Mem())
      ensures evicted <==> rescue != old(rescue)
    {
      ghost var before := Mem();
      evicted := false;
      var bytes := RescueBytesTotal();
      ghost var last := RescueKey([], 0, 0);
      NothingTrimmed(before);
      while rescue != map[] && (|rescue| > RESCUE_MAX_ENTRIES || bytes > RESCUE_MAX_BYTES)
        invariant Evicting(before, Mem(), evicted, last)
        invariant bytes == RescueBytes(rescue)
        decreases rescue.Keys
      {
        last := EvictOldest(before);
        evicted := true;
        bytes := RescueBytesTotal();
      }
      EmptyCacheFits();
      EvictingEnds(before, Mem(), evicted, last);
    }

    method EvictOldest(ghost before: Memory) returns (oldest: RescueKey)
      requires Trimmed(before, Mem()) && rescue.Keys == rescueTs.Keys && Oversized(rescue) && rescue != map[]
      modifies this`rescue, this`rescueTs, this`attempts
      ensures Evicting(before, Mem(), true, oldest)
      ensures rescue.Keys < old(rescue.Keys)
    {
      OldestExists(rescueTs);
      oldest :| oldest in rescueTs && forall k :: k in rescueTs ==> rescueTs[oldest] <= rescueTs[k];
      EvictOneMore(before, Mem(), oldest);
      assert oldest in rescue;
      rescue := rescue - {oldest};
      rescueTs := rescueTs - {oldest};
      attempts := attempts - {oldest};
    }
  }

  lemma WithoutOneIsSmaller<K, V>(m: map<K, V>, key: K)
    requires key in m
    ensures |m - {key}| < |m|
  {
    assert m.Keys == (m - {key}).Keys + {key};
  }

  /** The sum over a generator of lengths. */
  method SumLengths(pieces: Pieces) returns (total: int)
    ensures total == PieceBytes(pieces)
  {
    total := 0;
    var rest := pieces;
    while rest != map[]
      invariant total + PieceBytes(rest) == PieceBytes(pieces)
      decreases rest.Keys
    {
      var k :| k in rest;
      SumPick(rest, Length, k);
      total := total + |rest[k]|;
      rest := rest - {k};
    }
  }

  /** The final join; a missing index raises KeyError. */
  method JoinAll(pieces: Pieces, total: nat) returns (r: Option<bytes>)
    ensures r == if Complete(pieces, total) then Some(JoinPieces(pieces, total)) else None
  {
    var joined: bytes := [];
    var list: seq<bytes> := [];
    for i := 0 to total
      invariant forall j :: 0 <= j < i ==> j in pieces
      invariant list == seq(i, j requires 0 <= j < i => pieces[j])
      invariant joined == Join(list)
    {
      if i !in pieces {
        return None;
      }
      JoinSnoc(list, pieces[i]);
      joined := joined + pieces[i];
      list := list + [pieces[i]];
    }
    r := Some(joined);
  }
}
