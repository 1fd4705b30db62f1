/** Packets of any size on their way: sent whole, sent in fragments, or not at all. */
module Sending {
  import opened Bytes
  import opened Packets
  import opened Sums
  import opened Padding
  import opened Codec
  import opened CodecTheorems
  import opened Wire
  import opened Fragmentation
  import opened Transfers
  import opened FragmentManagers
  import opened Delivery

  // ----- What create_fragments makes of a packet -----

  /** The hops that leave no room for data in a fragment: 58 of them, 57 beside a recipient. */
  predicate RouteTooLong(p: Packet) {
    p.HasRoute() && |p.route.value| >= if p.recipient.Some? then 57 else 58
  }

  lemma RoomExactly(p: Packet)
    ensures MaxData(p) <= 0 <==> RouteTooLong(p)
  {
  }

  /** The bytes of data in a fragment: 461, or 459 with version 2 or a route; 8 less for a recipient and for every hop,
      and 1 less for the count of hops. */
  lemma RoomInNumbers(p: Packet)
    ensures MaxData(p)
         == (if p.HasRoute() then 459 - 1 - 8 * |p.route.value| else if p.version >= 2 then 459 else 461)
            - (if p.recipient.Some? then 8 else 0)
  {
  }

  /** Chunk i is the i-th slice of `size` bytes, the last one what remains. */
  lemma {:induction false} ChunkAt(s: bytes, size: nat, i: nat)
    requires size > 0 && i < |Chunks(s, size)|
    ensures i * size < |s|
    ensures Chunks(s, size)[i] == s[i * size..if (i + 1) * size < |s| then (i + 1) * size else |s|]
    decreases |s|
  {
    if |s| > size && i > 0 {
      ChunkAt(s[size..], size, i - 1);
      MulStep(i - 1, size);
      MulStep(i, size);
      SliceOfRest(s, size, (i - 1) * size, if i * size < |s| - size then i * size else |s| - size);
    } else {
      MulStep(0, size);
    }
  }

  lemma SliceOfRest(s: bytes, size: nat, low: nat, high: nat)
    requires low <= high && size + high <= |s|
    ensures s[size..][low..high] == s[size + low..size + high]
  {
  }

  /** Nothing is sent exactly when the packet does not encode, or is over 512 bytes and its route leaves no room. */
  lemma NothingSentExactly(w: Wire, p: Packet, now: nat, fragId: bytes)
    requires |fragId| == FRAGMENT_ID_SIZE
    ensures CreateFragments(w, p, now, fragId) == Send([])
       <==> w.raw(p, now).None? || (|FullData(w, p, now)| > 512 && RouteTooLong(p))
  {
    RoomExactly(p);
    if w.raw(p, now).Some? && |FullData(w, p, now)| > 512 && !RouteTooLong(p) {
      ChunkSizes(FullData(w, p, now), MaxData(p));
    }
  }

  /** A packet is sent whole exactly when it encodes to at most 512 bytes without what reads as padding. */
  lemma SentWholeExactly(w: Wire, p: Packet, now: nat, fragId: bytes)
    requires |fragId| == FRAGMENT_ID_SIZE
    ensures CreateFragments(w, p, now, fragId) == Send([p])
       <==> w.raw(p, now).Some? && |FullData(w, p, now)| <= 512
  {
    if w.raw(p, now).Some? && |FullData(w, p, now)| > 512 && MaxData(p) > 0 {
      ChunkSizes(FullData(w, p, now), MaxData(p));
      assert |Chunks(FullData(w, p, now), MaxData(p))| != 1;
    }
  }

  /** A struct error is raised exactly when a uint16 does not count the fragments. */
  lemma PackErrorExactly(w: Wire, z: Zlib, p: Packet, now: nat, fragId: bytes)
    requires SizesFollow(w, z) && |fragId| == FRAGMENT_ID_SIZE
    ensures CreateFragments(w, p, now, fragId) == PackError
       <==> && w.raw(p, now).Some? && |FullData(w, p, now)| > 512 && !RouteTooLong(p)
            && |Chunks(FullData(w, p, now), MaxData(p))| >= 65_536
  {
    RoomExactly(p);
    FieldSizes();
  }

  // ----- Delivery at every size -----

  /** The bytes of packet j of those that are sent for `p`, encoded at `clock`. */
  function SentWire(w: Wire, p: Packet, now: nat, fragId: bytes, j: nat, clock: nat): Option<bytes>
    requires |fragId| == FRAGMENT_ID_SIZE
  {
    var sent := CreateFragments(w, p, now, fragId);
    if sent.Send? && j < |sent.packets| then w.Encode(sent.packets[j], clock) else None
  }

  /** A packet that encodes to at most 512 bytes is sent whole, and what arrives decodes to it. */
  lemma SmallPacketArrives(w: Wire, z: Zlib, p: Packet, now: nat, fragId: bytes, clock: nat)
    requires RoundTrips(w, z) && SizesFollow(w, z) && Sendable(w, z, p, now) && |fragId| == FRAGMENT_ID_SIZE
    requires |FullData(w, p, now)| <= 512 && clock < Pow256(8)
    ensures CreateFragments(w, p, now, fragId) == Send([p])
    ensures
      var wire := SentWire(w, p, now, fragId, 0, clock);
      wire.Some? && w.decode(wire.value) == Some(AsReceived(z, p, clock))
  {
    assert Encodable(z, p, now);
    assert Encodable(z, p, clock);
    assert Sendable(w, z, p, clock);
  }

  /** Every packet that can be encoded arrives, whatever its size: unless its route leaves no room or a receiver's limit
      of 256 fragments is exceeded, something is sent. Up to 512 bytes it is the packet, which decodes to itself; above,
      it is fragments, and whatever else a receiver with room for them gets in between, the last missing one returns the
      packet with TTL 0, if and only if unpadding stripped nothing but padding. */
  lemma {:induction false} EveryPacketArrives(
    w: Wire, z: Zlib, p: Packet, now: nat, fragId: bytes, clock: nat, t: Transfer, r: Trace, sentAt: seq<nat>, n: nat)
    requires CodecLaws(w, z) && Sendable(w, z, p, now) && |fragId| == FRAGMENT_ID_SIZE && clock < Pow256(8)
    requires !RouteTooLong(p) && |Chunks(FullData(w, p, now), MaxData(p))| <= 256
    ensures
      var sent := CreateFragments(w, p, now, fragId);
      sent.Send? && sent.packets != []
    ensures |FullData(w, p, now)| <= 512 ==>
              var wire := SentWire(w, p, now, fragId, 0, clock);
              && CreateFragments(w, p, now, fragId).packets == [p]
              && wire.Some? && w.decode(wire.value) == Some(AsReceived(z, p, clock))
    ensures |FullData(w, p, now)| > 512 ==>
              && Splits(w, p, now)
              && (Completing(w, p, now, fragId, t, r, sentAt, n) ==>
                    (ReplyOf(r.outcomes[n - 1], w.decode) == Returned(Some(AsReceived(z, p, now).WithTtl(0)))
                     <==> PadsSize(|w.raw(p, now).value|) || !ReadsAsPadding(w.raw(p, now).value)))
  {
    RoomExactly(p);
    NothingSentExactly(w, p, now, fragId);
    PackErrorExactly(w, z, p, now, fragId);
    if |FullData(w, p, now)| <= 512 {
      SmallPacketArrives(w, z, p, now, fragId, clock);
    } else if Completing(w, p, now, fragId, t, r, sentAt, n) {
      SplitSendReassemble(w, z, p, now, fragId, t, r, sentAt, n);
    }
  }

  /** A receiver's run in which the fragments of `p` arrive among other events, and event n brings the last one. */
  ghost predicate Completing(
    w: Wire, p: Packet, now: nat, fragId: bytes, t: Transfer, r: Trace, sentAt: seq<nat>, n: nat)
    requires w.raw(p, now).Some? && MaxData(p) > 0 && |fragId| == FRAGMENT_ID_SIZE
  {
    && t == TransferOf(w, p, now, fragId) && OnAir(w, p, now, fragId, t, r, sentAt) && ReadyFor(r, t)
    && 0 < n <= |r.parts| && MissingBefore(r, t, map[], n) && NothingMissing(r, t, map[], n)
  }

  // ----- What a fragment keeps of the packet's header -----

  /** Fragment i carries the sender, recipient, route, TTL and timestamp of its packet, and no signature;
      its payload is eight bytes of id, the index, the total, the packet's type and the i-th chunk. */
  lemma {:induction false} FragmentHeader(
    w: Wire, z: Zlib, p: Packet, now: nat, fragId: bytes, i: nat, clock: nat)
    requires RoundTrips(w, z) && SizesFollow(w, z)
    requires Splits(w, p, now) && |fragId| == FRAGMENT_ID_SIZE && clock < Pow256(8)
    requires i < |Chunks(FullData(w, p, now), MaxData(p))|
    ensures
      var chunks := Chunks(FullData(w, p, now), MaxData(p));
      var wire := SentWire(w, p, now, fragId, i, clock);
      && |CreateFragments(w, p, now, fragId).packets| == |chunks|
      && wire.Some? && w.decode(wire.value).Some?
      && var q := w.decode(wire.value).value;
         && q.packetType == 0x20 && q.ttl == p.ttl && q.timestamp == Timestamp(p, clock)
         && q.sender == AsReceived(z, p, now).sender && q.recipient == AsReceived(z, p, now).recipient
         && q.route == AsReceived(z, p, now).route && q.signature == None
         && q.version == (if p.HasRoute() then 2 else 1)
         && q.payload == fragId + BigEndian(i, 2) + BigEndian(|chunks|, 2) + [p.packetType] + chunks[i]
  {
    FieldSizes();
    FragmentArrives(w, z, p, now, fragId, i, clock);
    SplitIsTransfer(w, p, now, fragId);
    var t := TransferOf(w, p, now, fragId);
    FragmentSendable(w, z, p, now, t.PieceAt(i), clock);
    assert Sendable(w, z, FragmentPacket(p, t.PieceAt(i)), clock);
  }
}
