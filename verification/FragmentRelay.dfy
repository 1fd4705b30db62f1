/** The fragments that relays meet are those that were split: from the bytes on the air to the shared key. */
module FragmentRelay {
  import opened Bytes
  import opened Packets
  import opened Codec
  import opened CodecTheorems
  import opened Wire
  import opened Fragmentation
  import opened SignedRelay
  import opened Relay

  /** A piece that splitting `p` can make. */
  predicate IsPieceOf(p: Packet, x: Piece) {
    Packable(x) && x.data != [] && |x.data| <= MaxData(p)
  }

  /** The bytes of a fragment, encoded at `sentAt` and relayed once per entry of `clocks`. */
  function FragmentBytes(z: Zlib, p: Packet, x: Piece, sentAt: nat, clocks: seq<nat>): Option<bytes>
    requires Packable(x)
  {
    var wire :- BinaryWire(z).Encode(FragmentPacket(p, x), sentAt);
    Travel(BinaryWire(z), wire, clocks)
  }

  /** Whatever its recipient, its route and its compression, every fragment of a packet with a timestamp decodes, after
      any number of relays, to what the relays' theorem calls a fragment of that packet. */
  lemma {:induction false} DecodedIsFragment(z: Zlib, p: Packet, now: nat, x: Piece, sentAt: nat, clocks: seq<nat>)
    requires Faithful(z) && BinaryWire(z).raw(p, now).Some? && p.timestamp != 0
    requires IsPieceOf(p, x) && sentAt < Pow256(8) && |clocks| <= p.ttl
    ensures FragmentBytes(z, p, x, sentAt, clocks).Some?
    ensures Decode(z, FragmentBytes(z, p, x, sentAt, clocks).value).Some?
    ensures
      var q := Decode(z, FragmentBytes(z, p, x, sentAt, clocks).value).value;
      FromWire(q) && IsFragmentOf(q, p, x) && q.ttl == p.ttl - |clocks|
  {
    var w := BinaryWire(z);
    var f := FragmentPacket(p, x);
    BinaryWireLaws(z);
    FragmentSendable(w, z, p, now, x, sentAt);
    SignedBytesSurviveRelays(w, z, f, sentAt, clocks, sentAt);
    DecodedFromWire(z, FragmentBytes(z, p, x, sentAt, clocks).value);
  }

  /** Two fragments of a packet, each encoded at its own time, share a key exactly when they carry the same timestamp:
      always if the packet has one, and otherwise only if they were encoded in the same millisecond. */
  lemma {:induction false} KeySharedExactly(
    z: Zlib, p: Packet, now: nat, x: Piece, y: Piece, sentX: nat, sentY: nat)
    requires Faithful(z) && BinaryWire(z).raw(p, now).Some?
    requires IsPieceOf(p, x) && IsPieceOf(p, y) && sentX < Pow256(8) && sentY < Pow256(8)
    ensures FragmentBytes(z, p, x, sentX, []).Some? && FragmentBytes(z, p, y, sentY, []).Some?
    ensures
      var a := Decode(z, FragmentBytes(z, p, x, sentX, []).value);
      var b := Decode(z, FragmentBytes(z, p, y, sentY, []).value);
      && a.Some? && b.Some? && FromWire(a.value) && FromWire(b.value)
      && (RelayKey(a.value) == RelayKey(b.value) <==> p.timestamp != 0 || sentX == sentY)
  {
    ReceivedAs(z, p, now, x, sentX);
    ReceivedAs(z, p, now, y, sentY);
    RelayKeyIdentifies(Decode(z, FragmentBytes(z, p, x, sentX, []).value).value,
                       Decode(z, FragmentBytes(z, p, y, sentY, []).value).value);
  }

  lemma {:induction false} ReceivedAs(z: Zlib, p: Packet, now: nat, x: Piece, sentAt: nat)
    requires Faithful(z) && BinaryWire(z).raw(p, now).Some? && IsPieceOf(p, x) && sentAt < Pow256(8)
    ensures FragmentBytes(z, p, x, sentAt, []).Some?
    ensures
      var q := Decode(z, FragmentBytes(z, p, x, sentAt, []).value);
      && q.Some? && FromWire(q.value)
      && q.value.sender == PadPeerId(p.sender) && q.value.packetType == FRAGMENT
      && q.value.timestamp == Timestamp(p, sentAt)
  {
    var w := BinaryWire(z);
    BinaryWireLaws(z);
    FragmentSendable(w, z, p, now, x, sentAt);
    assert Sendable(w, z, FragmentPacket(p, x), sentAt);
    DecodedFromWire(z, FragmentBytes(z, p, x, sentAt, []).value);
  }
}
