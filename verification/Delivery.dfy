/** From packet to packet: split, send, reassemble; and resuming from a rescue entry. */
module Delivery {
  import opened Bytes
  import opened Packets
  import opened Padding
  import opened Codec
  import opened CodecTheorems
  import opened Wire
  import opened Fragmentation
  import opened Sums
  import opened Reassembly
  import opened Attempts
  import opened Transfers
  import opened FragmentManagers

  // ----- Split, send, reassemble -----

  /** The transfer that splitting `p` starts. */
  function TransferOf(w: Wire, p: Packet, now: nat, fragId: bytes): Transfer
    requires w.raw(p, now).Some? && MaxData(p) > 0
  {
    Transfer(fragId, PadPeerId(p.sender), p.packetType, Chunks(FullData(w, p, now), MaxData(p)))
  }

  /** `p` is split into fragments, and few enough of them for a receiver. */
  predicate Splits(w: Wire, p: Packet, now: nat) {
    && w.raw(p, now).Some? && p.packetType < 256
    && |FullData(w, p, now)| > FRAGMENT_SIZE_THRESHOLD
    && MaxData(p) > 0
    && |Chunks(FullData(w, p, now), MaxData(p))| <= MAX_FRAGMENTS_PER_ID
  }

  lemma SplitIsTransfer(w: Wire, p: Packet, now: nat, fragId: bytes)
    requires Splits(w, p, now) && |fragId| == FRAGMENT_ID_SIZE
    ensures
      var t := TransferOf(w, p, now, fragId);
      && t.Carriable()
      && CreateFragments(w, p, now, fragId).Send?
      && |CreateFragments(w, p, now, fragId).packets| == |t.list|
      && (forall i :: 0 <= i < |t.list| ==> Packable(t.PieceAt(i)) && |t.list[i]| <= MaxData(p))
      && (forall i :: 0 <= i < |t.list| ==>
            CreateFragments(w, p, now, fragId).packets[i] == FragmentPacket(p, t.PieceAt(i)))
  {
    FieldSizes();
    ChunkSizes(FullData(w, p, now), MaxData(p));
  }

  /** The bytes of fragment i, encoded at `clock`, on the air. */
  function FragmentWire(w: Wire, p: Packet, now: nat, fragId: bytes, i: nat, clock: nat): Option<bytes>
    requires |fragId| == FRAGMENT_ID_SIZE
  {
    var sent := CreateFragments(w, p, now, fragId);
    if sent.Send? && i < |sent.packets| then w.Encode(sent.packets[i], clock) else None
  }

  /** Every fragment survives the wire, whenever it is encoded. */
  lemma FragmentArrives(w: Wire, z: Zlib, p: Packet, now: nat, fragId: bytes, i: nat, clock: nat)
    requires RoundTrips(w, z) && SizesFollow(w, z)
    requires Splits(w, p, now) && |fragId| == FRAGMENT_ID_SIZE && clock < Pow256(8)
    requires i < |TransferOf(w, p, now, fragId).list|
    ensures
      var t := TransferOf(w, p, now, fragId);
      var wire := FragmentWire(w, p, now, fragId, i, clock);
      && wire.Some? && w.decode(wire.value).Some?
      && w.decode(wire.value).value.sender == t.sender
      && Packable(t.PieceAt(i)) && w.decode(wire.value).value.payload == EncodePiece(t.PieceAt(i))
  {
    SplitIsTransfer(w, p, now, fragId);
    var t := TransferOf(w, p, now, fragId);
    FragmentSendable(w, z, p, now, t.PieceAt(i), clock);
    var f := FragmentPacket(p, t.PieceAt(i));
    assert Sendable(w, z, f, clock);
    assert FragmentWire(w, p, now, fragId, i, clock) == w.Encode(f, clock);
  }

  /** The event of receiving `wire`: what does not decode is dropped. */
  predicate Brings(w: Wire, wire: Option<bytes>, e: Event) {
    wire.Some? && w.decode(wire.value).Some? ==>
      var q := w.decode(wire.value).value;
      e.Arrive? && e.sender == q.sender && e.payload == q.payload
  }

  /** A receiver's run in which fragments of `p`, each encoded at its own time, arrive among other events. */
  ghost predicate OnAir(w: Wire, p: Packet, now: nat, fragId: bytes, t: Transfer, r: Trace, sentAt: seq<nat>)
    requires |fragId| == FRAGMENT_ID_SIZE
  {
    && IsRun(r.states, r.events, r.outcomes, r.persistent) && |r.parts| == |r.events| == |sentAt|
    && forall j :: 0 <= j < |r.parts| ==>
         match r.parts[j]
         case Other => LeavesAlone(r.states[j], t, r.events[j], LastTouch(r.parts, r.events, j))
         case Own(i) =>
           && i < t.Total() && sentAt[j] < Pow256(8)
           && Brings(w, FragmentWire(w, p, now, fragId, i, sentAt[j]), r.events[j])
  }

  /** At the first fragment the receiver knows nothing of the transfer, and at each there is room for all of it. */
  ghost predicate ReadyFor(r: Trace, t: Transfer) {
    && r.parts != [] && r.parts[0].Own? && |r.states| > |r.parts| == |r.events|
    && t.fragId !in r.states[0].sets && |r.states[0].sets| < MAX_ACTIVE_FRAGMENT_SETS
    && (r.events[0].Arrive? ==> Inherited(r.states[0], t.Key(), r.events[0].created) == map[])
    && forall j :: 0 <= j < |r.parts| && r.parts[j].Own? ==> RoomBeside(r.states[j], t, MAX_FRAGMENT_SIZE)
  }

  lemma OnAirBegins(
    w: Wire, z: Zlib, p: Packet, now: nat, fragId: bytes, t: Transfer, r: Trace, sentAt: seq<nat>)
    requires RoundTrips(w, z) && SizesFollow(w, z)
    requires Splits(w, p, now) && |fragId| == FRAGMENT_ID_SIZE && t == TransferOf(w, p, now, fragId)
    requires OnAir(w, p, now, fragId, t, r, sentAt) && ReadyFor(r, t)
    ensures Begins(r, t, map[], MAX_FRAGMENT_SIZE)
  {
    SplitIsTransfer(w, p, now, fragId);
    MulMonotone(|t.list|, MAX_FRAGMENTS_PER_ID, MAX_FRAGMENT_SIZE);
    forall j | 0 <= j < |r.parts|
      ensures IsPart(t, r.parts[j], r.states[j], r.events[j], LastTouch(r.parts, r.events, j))
    {
      if r.parts[j].Own? {
        FragmentArrives(w, z, p, now, fragId, r.parts[j].index, sentAt[j]);
      }
    }
    assert IsPart(t, r.parts[0], r.states[0], r.events[0], LastTouch(r.parts, r.events, 0));
  }

  /** The fragments of a packet, in any order with any repeats and among any other traffic, to a manager with room:
      nothing comes back while an index is missing; the last missing index completes exactly what was split. */
  lemma {:induction false} FragmentsReassemble(
    w: Wire, z: Zlib, p: Packet, now: nat, fragId: bytes, t: Transfer, r: Trace, sentAt: seq<nat>, n: nat)
    requires RoundTrips(w, z) && SizesFollow(w, z)
    requires Splits(w, p, now) && |fragId| == FRAGMENT_ID_SIZE && t == TransferOf(w, p, now, fragId)
    requires OnAir(w, p, now, fragId, t, r, sentAt) && ReadyFor(r, t)
    requires 0 < n <= |r.parts| && MissingBefore(r, t, map[], n)
    ensures
      if NothingMissing(r, t, map[], n)
      then r.outcomes[n - 1] == Completed(FullData(w, p, now)) && Cleared(r.states[n], t.Key())
      else r.parts[n - 1].Own? ==> r.outcomes[n - 1] == Waiting
  {
    OnAirBegins(w, z, p, now, fragId, t, r, sentAt);
    CompletesFromChunks(r, t, map[], MAX_FRAGMENT_SIZE, n);
    ChunksJoin(FullData(w, p, now), MaxData(p));
  }

  /** What was split decodes to the original packet exactly when unpadding stripped nothing but padding: either the
      encoding was padded, or its tail does not read as padding. Otherwise the packet is lost or loses its signature. */
  lemma FullDataDecodes(w: Wire, z: Zlib, p: Packet, now: nat)
    requires RoundTrips(w, z) && RejectsPrefixes(w, z) && Sendable(w, z, p, now)
    ensures
      var raw := w.raw(p, now).value;
      ReplyOf(Completed(FullData(w, p, now)), w.decode) == Returned(Some(AsReceived(z, p, now).WithTtl(0)))
      <==> PadsSize(|raw|) || !ReadsAsPadding(raw)
  {
    var raw := w.raw(p, now).value;
    UnpadUndoesPad(raw);
    PadAddsBytes(raw);
    if !PadsSize(|raw|) && ReadsAsPadding(raw) {
      assert Pad(raw) == raw;
      assert Unpad(raw) < raw;
      assert w.decode(Unpad(raw)).Some? ==> w.decode(Unpad(raw)).value.signature.None?;
    }
  }

  /** Split, send, reassemble: with the last missing fragment the receiver returns exactly the original packet with
      TTL 0, if and only if the encoding was really padded or does not end like padding. */
  lemma {:induction false} SplitSendReassemble(
    w: Wire, z: Zlib, p: Packet, now: nat, fragId: bytes, t: Transfer, r: Trace, sentAt: seq<nat>, n: nat)
    requires CodecLaws(w, z) && Sendable(w, z, p, now)
    requires Splits(w, p, now) && |fragId| == FRAGMENT_ID_SIZE && t == TransferOf(w, p, now, fragId)
    requires OnAir(w, p, now, fragId, t, r, sentAt) && ReadyFor(r, t)
    requires 0 < n <= |r.parts| && MissingBefore(r, t, map[], n) && NothingMissing(r, t, map[], n)
    ensures
      var raw := w.raw(p, now).value;
      ReplyOf(r.outcomes[n - 1], w.decode) == Returned(Some(AsReceived(z, p, now).WithTtl(0)))
      <==> PadsSize(|raw|) || !ReadsAsPadding(raw)
  {
    FragmentsReassemble(w, z, p, now, fragId, t, r, sentAt, n);
    FullDataDecodes(w, z, p, now);
  }

  // ----- Resuming -----

  /** Sweeping rescues every expired set that is worth it, whatever else expires with it. */
  lemma {:induction false} ExpiryRescues(m: Memory, order: seq<bytes>, now: real, k: bytes)
    requires k in m.sets && Expired(m.sets[k], now) && WorthRescuing(m.sets[k])
    requires forall i, j :: 0 <= i < j < |order| ==> order[i] != order[j]
    ensures
      var after := ExpireSets(m, order, now);
      var s := m.sets[k];
      if k in order then
        && s.Key() in after.rescue && s.fragments.Keys <= after.rescue[s.Key()].Keys
        && s.Key() in after.rescueTs && after.rescueTs[s.Key()] == now
      else k in after.sets && after.sets[k] == s
    decreases |order|
  {
    if order != [] {
      var n := |order| - 1;
      assert order == order[..n] + [order[n]];
      ExpiryRescues(m, order[..n], now, k);
    }
  }

  lemma SweepRescues(m: Memory, after: Memory, order: seq<bytes>, now: real, persistent: bool, k: bytes)
    requires Swept(m, after, order, now, persistent) && Enumerates(order, m.sets.Keys)
    requires k in m.sets && Expired(m.sets[k], now) && WorthRescuing(m.sets[k])
    requires m.sets[k].Key() in after.rescue
    ensures m.sets[k].fragments.Keys <= after.rescue[m.sets[k].Key()].Keys
    ensures m.sets[k].Key() in after.rescueTs && after.rescueTs[m.sets[k].Key()] == now
  {
    ExpiryRescues(DropStale(m, now), order, now, k);
  }

  lemma SweptEntryIsSound(
    world: World, m: Memory, after: Memory, order: seq<bytes>, now: real, persistent: bool, key: RescueKey)
    requires Sound(world, m) && Swept(m, after, order, now, persistent)
    requires key in after.rescue
    ensures FromChunks(after.rescue[key], world.chunks(key))
  {
    SweepKeepsSound(world, m, after, order, now, persistent);
  }

  /** The rescue entry of a set that expired at `now`, from then on: all its indices, only correct chunks, and a time
      that is not older. */
  ghost predicate RescuedFrom(s: FragmentSet, m: Memory, now: real, list: seq<bytes>) {
    KeepsEntry(m, s.Key(), s.fragments.Keys, now) && FromChunks(m.rescue[s.Key()], list)
  }

  /** The entry has at least these indices and is at least as new as `now`. */
  predicate KeepsEntry(m: Memory, key: RescueKey, indices: set<nat>, now: real) {
    && key in m.rescue && indices <= m.rescue[key].Keys
    && key in m.rescueTs && m.rescueTs[key] >= now
  }

  /** A set that expires with at least three quarters of its fragments leaves all of them, and only correct chunks,
      in the rescue cache, unless its entry is evicted in the same sweep. */
  lemma ExpiredSetIsRescued(
    world: World, m: Memory, swept: Memory, order: seq<bytes>, now: real, persistent: bool, k: bytes)
    requires Sound(world, m) && Swept(m, swept, order, now, persistent) && Enumerates(order, m.sets.Keys)
    requires k in m.sets && Expired(m.sets[k], now) && WorthRescuing(m.sets[k])
    requires m.sets[k].Key() in swept.rescue
    ensures RescuedFrom(m.sets[k], swept, now, world.chunks(m.sets[k].Key()))
    ensures swept.rescueTs[m.sets[k].Key()] == now
  {
    SweepRescues(m, swept, order, now, persistent, k);
    SweptEntryIsSound(world, m, swept, order, now, persistent, m.sets[k].Key());
  }

  /** Resuming from such an entry: a new attempt, started within the hour, completes at the first fragment after
      which the rescued and the new indices cover everything, to exactly the string that is sent, and leaves nothing
      of the transfer behind, whatever else arrives meanwhile. */
  lemma {:induction false} ResumeCompletes(
    s: FragmentSet, now: real, r: Trace, t: Transfer, inherited: Pieces, bound: nat, n: nat)
    requires r.states != [] && t.Key() == s.Key() && RescuedFrom(s, r.states[0], now, t.list)
    requires r.events != [] && r.events[0].Arrive? && r.events[0].created - now < RESCUE_TTL_MS
    requires Begins(r, t, inherited, bound)
    requires 0 < n <= |r.parts| && MissingBefore(r, t, inherited, n)
    ensures s.fragments.Keys <= inherited.Keys
    ensures
      if NothingMissing(r, t, inherited, n)
      then r.outcomes[n - 1] == Completed(Join(t.list)) && Cleared(r.states[n], t.Key())
      else r.parts[n - 1].Own? ==> r.outcomes[n - 1] == Waiting
  {
    assert inherited == r.states[0].rescue[t.Key()];
    CompletesFromChunks(r, t, inherited, bound, n);
  }

  /** A transfer that inherits correct chunks completes exactly the string that is sent. */
  lemma {:induction false} CompletesFromChunks(r: Trace, t: Transfer, inherited: Pieces, bound: nat, n: nat)
    requires Begins(r, t, inherited, bound) && FromChunks(inherited, t.list)
    requires 0 < n <= |r.parts| && MissingBefore(r, t, inherited, n)
    ensures
      if NothingMissing(r, t, inherited, n)
      then r.outcomes[n - 1] == Completed(Join(t.list)) && Cleared(r.states[n], t.Key())
      else r.parts[n - 1].Own? ==> r.outcomes[n - 1] == Waiting
  {
    TransferCompletes(r, t, inherited, bound, n);
    CoveredIsComplete(inherited, t, Order(r, t, n));
    if NothingMissing(r, t, inherited, n) {
      OverlayOfChunks(inherited, t, Order(r, t, n));
    }
  }

  lemma {:induction false} OverlayOfChunks(inherited: Pieces, t: Transfer, order: seq<nat>)
    requires forall j :: 0 <= j < |order| ==> order[j] < |t.list|
    requires FromChunks(inherited, t.list) && Complete(Overlay(inherited, t.list, order), t.Total())
    ensures JoinPieces(Overlay(inherited, t.list, order), t.Total()) == Join(t.list)
  {
    var pieces := Overlay(inherited, t.list, order);
    forall i: nat | i in pieces
      ensures i < |t.list| && pieces[i] == t.list[i]
    {
      OverlayAt(inherited, t.list, order, i);
      if i in order {
        var j :| 0 <= j < |order| && order[j] == i;
      }
    }
    JoinOfChunks(pieces, t.list);
  }

  /** Without the same content behind the same key the mixture shows: one stale inherited piece stays in the result. */
  lemma {:induction false} StalePieceSurvives(r: Trace, t: Transfer, stale: bytes, bound: nat)
    requires Begins(r, t, map[0 := stale], bound) && t.Total() == 2 && r.parts[0] == Own(1)
    ensures r.outcomes[0] == Completed(stale + t.list[1])
  {
    var inherited: Pieces := map[0 := stale];
    TransferCompletes(r, t, inherited, bound, 1);
    OrderNext(r, t, 0);
    MixedPair(t, stale);
  }

  lemma MixedPair(t: Transfer, stale: bytes)
    requires t.Total() == 2
    ensures
      var pieces := Overlay(map[0 := stale], t.list, [1]);
      Complete(pieces, 2) && JoinPieces(pieces, 2) == stale + t.list[1]
  {
    assert [1][..0] == [];
    var inherited: Pieces := map[0 := stale];
    var pieces := Overlay(inherited, t.list, [1]);
    assert pieces == Overlay(inherited, t.list, [])[1 := t.list[1]];
    assert seq(2, i requires 0 <= i < 2 => pieces[i]) == [stale] + [t.list[1]];
    JoinSnoc([stale], t.list[1]);
    assert Join([stale]) == stale + Join([]);
  }
}
