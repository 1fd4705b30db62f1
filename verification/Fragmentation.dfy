/** Outbound fragmentation: the fragment payload format and create_fragments of mesh/fragment_manager.py. */
module Fragmentation {
  import opened Bytes
  import opened Packets
  import opened Padding
  import opened Codec
  import opened CodecTheorems
  import opened Wire

  const FRAGMENT_SIZE_THRESHOLD := 512
  const MAX_FRAGMENT_SIZE := 469
  const FRAGMENT_HEADER_SIZE := 13
  const FRAGMENT_ID_SIZE := 8
  const MAX_FRAGMENTS_PER_ID := 256
  const MAX_FRAGMENT_TOTAL_BYTES := 1_048_576

  // ----- The fragment payload -----

  datatype Piece = Piece(fragId: bytes, index: nat, total: nat, originalType: nat, data: bytes)

  predicate Packable(x: Piece) {
    |x.fragId| == FRAGMENT_ID_SIZE && x.index < Pow256(2) && x.total < Pow256(2) && x.originalType < 256
  }

  function EncodePiece(x: Piece): (payload: bytes)
    requires Packable(x)
    ensures |payload| == FRAGMENT_HEADER_SIZE + |x.data|
  {
    x.fragId + BigEndian(x.index, 2) + BigEndian(x.total, 2) + [x.originalType] + x.data
  }

  function DecodePiece(payload: bytes): Option<Piece> {
    if |payload| < FRAGMENT_HEADER_SIZE then None
    else Some(Piece(payload[..FRAGMENT_ID_SIZE], FromBigEndian(payload[8..10]), FromBigEndian(payload[10..12]),
                    payload[12], payload[FRAGMENT_HEADER_SIZE..]))
  }

  lemma PieceRoundTrip(x: Piece)
    requires Packable(x)
    ensures DecodePiece(EncodePiece(x)) == Some(x)
  {
    var payload := EncodePiece(x);
    assert payload[..8] == x.fragId;
    assert payload[8..10] == BigEndian(x.index, 2);
    assert payload[10..12] == BigEndian(x.total, 2);
    assert payload[13..] == x.data;
    BigEndianRoundTrip(x.index, 2);
    BigEndianRoundTrip(x.total, 2);
  }

  /** Conversely every payload that decodes is the encoding of what it decodes to. */
  lemma PieceOnto(payload: bytes)
    requires |payload| >= FRAGMENT_HEADER_SIZE
    ensures
      var x := DecodePiece(payload).value;
      Packable(x) && EncodePiece(x) == payload
  {
    BigEndianOnto(payload[8..10]);
    BigEndianOnto(payload[10..12]);
    var x := DecodePiece(payload).value;
    assert payload == payload[..8] + payload[8..10] + payload[10..12] + [payload[12]] + payload[13..];
  }

  // ----- Chunks -----

  /** Consecutive slices of `size` bytes, the last one possibly shorter. */
  function Chunks(s: bytes, size: nat): seq<bytes>
    requires size > 0
    decreases |s|
  {
    if s == [] then []
    else if |s| <= size then [s]
    else [s[..size]] + Chunks(s[size..], size)
  }

  lemma {:induction false} ChunksJoin(s: bytes, size: nat)
    requires size > 0
    ensures Join(Chunks(s, size)) == s
    decreases |s|
  {
    if |s| > size {
      ChunksJoin(s[size..], size);
      assert Chunks(s, size)[1..] == Chunks(s[size..], size);
    } else if s != [] {
      assert Join([s]) == s + Join([]);
    }
  }

  lemma {:induction false} ChunkSizes(s: bytes, size: nat)
    requires size > 0
    ensures forall i :: 0 <= i < |Chunks(s, size)| ==> 1 <= |Chunks(s, size)[i]| <= size
    ensures |s| <= |Chunks(s, size)| * size
    ensures s != [] ==> (|Chunks(s, size)| - 1) * size < |s|
    decreases |s|
  {
    if |s| > size {
      ChunkSizes(s[size..], size);
    }
  }

  // ----- create_fragments -----

  /** The room for data in one fragment; not positive for very long routes. */
  function MaxData(p: Packet): int {
    var version := if p.HasRoute() then 2 else p.version;
    var recipientSize := if p.recipient.Some? then PEER_ID_SIZE else 0;
    var routeSize := if p.HasRoute() then 1 + |p.route.value| * PEER_ID_SIZE else 0;
    var overhead := HeaderSize(version) + PEER_ID_SIZE + recipientSize + routeSize + FRAGMENT_HEADER_SIZE + 16;
    if 512 - overhead < MAX_FRAGMENT_SIZE then 512 - overhead else MAX_FRAGMENT_SIZE
  }

  /** The FRAGMENT packet that carries one piece of `p`. */
  function FragmentPacket(p: Packet, x: Piece): Packet
    requires Packable(x)
  {
    Packet(if p.HasRoute() then 2 else 1, FRAGMENT, p.ttl, p.timestamp, 0, p.sender, p.recipient, EncodePiece(x), None,
           p.route)
  }

  /** The encoded packet, with whatever reads as padding stripped, whether or not it was added. */
  function FullData(w: Wire, p: Packet, now: nat): bytes
    requires w.raw(p, now).Some?
  {
    Unpad(Pad(w.raw(p, now).value))
  }

  datatype Outgoing = Send(packets: seq<Packet>) | PackError

  /** create_fragments: the packets that go out for `p`; more fragments than a uint16 counts is a struct error. */
  function CreateFragments(w: Wire, p: Packet, now: nat, fragId: bytes): Outgoing
    requires |fragId| == FRAGMENT_ID_SIZE
  {
    if w.raw(p, now).None? then Send([])
    else
      var full := FullData(w, p, now);
      if |full| <= FRAGMENT_SIZE_THRESHOLD then Send([p])
      else if MaxData(p) <= 0 then Send([])
      else
        var chunks := Chunks(full, MaxData(p));
        if |chunks| >= Pow256(2) || p.packetType >= 256 then PackError
        else Send(seq(|chunks|, i requires 0 <= i < |chunks| =>
                    FragmentPacket(p, Piece(fragId, i, |chunks|, p.packetType, chunks[i]))))
  }

  method SplitChunks(s: bytes, size: nat) returns (chunks: seq<bytes>)
    requires size > 0
    ensures chunks == Chunks(s, size)
  {
    chunks := [];
    var i := 0;
    while i < |s|
      invariant 0 <= i
      invariant i <= |s| ==> chunks + Chunks(s[i..], size) == Chunks(s, size)
      invariant i > |s| ==> chunks == Chunks(s, size)
    {
      var end := if i + size <= |s| then i + size else |s|;
      ghost var rest := s[i..];
      if i + size < |s| {
        assert rest[..size] == s[i..end] && rest[size..] == s[i + size..];
        assert chunks + ([s[i..end]] + Chunks(s[i + size..], size))
            == chunks + [s[i..end]] + Chunks(s[i + size..], size);
      } else {
        assert rest == s[i..end];
        assert i + size == |s| ==> s[i + size..] == [];
      }
      chunks := chunks + [s[i..end]];
      i := i + size;
    }
    assert i == |s| ==> s[i..] == [];
  }

  method SplitPacket(w: Wire, p: Packet, now: nat, fragId: bytes) returns (r: Outgoing)
    requires |fragId| == FRAGMENT_ID_SIZE
    ensures r == CreateFragments(w, p, now, fragId)
  {
    var encoded := w.Encode(p, now);
    if encoded.None? {
      return Send([]);
    }
    var full := Unpad(encoded.value);
    if |full| <= FRAGMENT_SIZE_THRESHOLD {
      return Send([p]);
    }
    var maxData := MaxData(p);
    if maxData <= 0 {
      return Send([]);
    }
    var chunks := SplitChunks(full, maxData);
    var total := |chunks|;
    if total >= Pow256(2) || p.packetType >= 256 {
      return PackError;
    }
    var fragments: seq<Packet> := [];
    for i := 0 to total
      invariant |fragments| == i
      invariant forall j :: 0 <= j < i ==>
                  fragments[j] == FragmentPacket(p, Piece(fragId, j, total, p.packetType, chunks[j]))
    {
      fragments := fragments + [FragmentPacket(p, Piece(fragId, i, total, p.packetType, chunks[i]))];
    }
    r := Send(fragments);
  }

  // ----- Sizes -----

  lemma {:induction false} JoinPeerIds(hops: seq<bytes>)
    requires forall h :: h in hops ==> |h| == PEER_ID_SIZE
    ensures |Join(hops)| == |hops| * PEER_ID_SIZE
  {
    if hops != [] {
      JoinPeerIds(hops[1..]);
    }
  }

  /** Every fragment that create_fragments makes encodes to at most 499 bytes and is padded to 256 or 512. */
  lemma FragmentsFit(w: Wire, z: Zlib, p: Packet, now: nat, fragId: bytes, i: nat, clock: nat)
    requires SizesFollow(w, z)
    requires |fragId| == FRAGMENT_ID_SIZE
    requires w.raw(p, now).Some? && |FullData(w, p, now)| > FRAGMENT_SIZE_THRESHOLD
    requires CreateFragments(w, p, now, fragId).Send? && i < |CreateFragments(w, p, now, fragId).packets|
    requires w.raw(CreateFragments(w, p, now, fragId).packets[i], clock).Some?
    ensures
      var raw := w.raw(CreateFragments(w, p, now, fragId).packets[i], clock).value;
      |raw| <= 499 && |Pad(raw)| in {256, 512}
  {
    var chunks := Chunks(FullData(w, p, now), MaxData(p));
    ChunkSizes(FullData(w, p, now), MaxData(p));
    var f := FragmentPacket(p, Piece(fragId, i, |chunks|, p.packetType, chunks[i]));
    assert f == CreateFragments(w, p, now, fragId).packets[i];
    FragmentSize(z, p, Piece(fragId, i, |chunks|, p.packetType, chunks[i]));
    PadAddsBytes(w.raw(f, clock).value);
    FragmentPads(w.raw(f, clock).value);
  }

  lemma FragmentSize(z: Zlib, p: Packet, x: Piece)
    requires Packable(x) && |x.data| <= MaxData(p) && x.data != []
    ensures WireSize(z, FragmentPacket(p, x)) <= 499
  {
    var f := FragmentPacket(p, x);
    if p.HasRoute() {
      JoinPeerIds(WireHops(p.route.value));
    }
  }

  lemma FragmentPads(raw: bytes)
    requires 1 <= |raw| <= 499
    ensures |Pad(raw)| in {256, 512}
  {
    PadAddsBytes(raw);
    if |raw| != 256 {
      BlockForBounds(|raw|, PADDING_BLOCK_SIZES);
    }
  }

  /** Whenever a packet encodes, so do its fragments, and a receiver gets their pieces unharmed. */
  lemma FragmentSendable(w: Wire, z: Zlib, p: Packet, now: nat, x: Piece, clock: nat)
    requires SizesFollow(w, z)
    requires w.raw(p, now).Some? && clock < Pow256(8)
    requires Packable(x) && x.data != [] && |x.data| <= MaxData(p)
    ensures
      var f := FragmentPacket(p, x);
      && Sendable(w, z, f, clock)
      && AsReceived(z, f, clock).payload == EncodePiece(x)
      && AsReceived(z, f, clock).sender == PadPeerId(p.sender)
  {
    FieldSizes();
    var f := FragmentPacket(p, x);
    assert Encodable(z, p, now);
    assert Encodable(z, f, clock);
  }

  /** An unrouted version 1 packet never needs more than 145 fragments, so a receiver's limit of 256 fragments
      and one MiB never turns it away. */
  lemma FewFragments(w: Wire, z: Zlib, p: Packet, now: nat, fragId: bytes)
    requires SizesFollow(w, z)
    requires |fragId| == FRAGMENT_ID_SIZE
    requires !p.HasRoute() && p.version == 1
    requires w.raw(p, now).Some?
    ensures CreateFragments(w, p, now, fragId).Send?
    ensures |CreateFragments(w, p, now, fragId).packets| <= 145
    ensures |FullData(w, p, now)| <= MAX_FRAGMENT_TOTAL_BYTES
  {
    FieldSizes();
    var raw := w.raw(p, now).value;
    UnpadUndoesPad(raw);
    PadAddsBytes(raw);
    assert |FullData(w, p, now)| <= |raw|;
    var size := MaxData(p);
    assert size == if p.recipient.Some? then 453 else 461;
    assert |raw| <= if p.recipient.Some? then 65629 else 65621;
    ChunkSizes(FullData(w, p, now), size);
    if FullData(w, p, now) != [] {
      CountBound(|Chunks(FullData(w, p, now), size)|, size, |raw|);
    }
  }

  lemma CountBound(count: nat, size: nat, length: nat)
    requires (size == 453 && length <= 65629) || (size == 461 && length <= 65621)
    requires (count - 1) * size < length
    ensures count <= 145
  {
    if size == 453 {
      assert (count - 1) * 453 < 65629;
    } else {
      assert (count - 1) * 461 < 65621;
    }
  }
}
