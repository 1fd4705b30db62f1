/** Which unsigned packets survive splitting, and some that are lost: SplitSendReassemble's side condition at work. */
module LostPacket {
  import opened Bytes
  import opened Packets
  import opened Padding
  import opened Codec
  import opened CodecTheorems
  import opened Wire
  import opened Fragmentation
  import opened Transfers
  import opened FragmentManagers
  import opened Delivery

  /** An encoding without compression and signature ends with the payload. */
  lemma RawEndsWithPayload(z: Zlib, p: Packet, now: nat)
    requires p.signature.None? && !Compresses(z, p.payload) && Raw(z, p, now).Some?
    ensures |p.payload| <= |Raw(z, p, now).value|
    ensures Raw(z, p, now).value[|Raw(z, p, now).value| - |p.payload|..] == p.payload
  {
    assert SignatureBytes(p) == [];
  }

  /** Whether a string ends like padding shows in its last 255 bytes. */
  lemma TailReadsAsPadding(data: bytes, tail: bytes)
    requires 255 <= |tail| <= |data| && data[|data| - |tail|..] == tail
    ensures ReadsAsPadding(data) <==> ReadsAsPadding(tail)
  {
    var padLen := data[|data| - 1];
    assert tail[|tail| - 1] == padLen;
    assert data[|data| - padLen..] == tail[|tail| - padLen..];
  }

  /** The side condition seen from the sender: the length of the encoding, and the end of the payload. */
  lemma SideConditionOfPayload(z: Zlib, p: Packet, now: nat)
    requires p.signature.None? && !Compresses(z, p.payload) && |p.payload| >= 255 && Raw(z, p, now).Some?
    ensures |Raw(z, p, now).value| == WireSize(z, p)
    ensures ReadsAsPadding(Raw(z, p, now).value) <==> ReadsAsPadding(p.payload)
  {
    BinaryWireSizesFollow(z);
    assert BinaryWire(z).raw(p, now) == Raw(z, p, now);
    RawEndsWithPayload(z, p, now);
    TailReadsAsPadding(Raw(z, p, now).value, p.payload);
  }

  /** An unsigned packet whose payload is not compressed, such as a ciphertext, comes back if and only if its encoding
      has a length that is padded or its payload does not end like padding: what a sender can see beforehand. */
  lemma {:induction false} UnsignedReassembles(
    z: Zlib, p: Packet, now: nat, fragId: bytes, t: Transfer, r: Trace, sentAt: seq<nat>, n: nat)
    requires Faithful(z) && Sendable(BinaryWire(z), z, p, now)
    requires p.signature.None? && !Compresses(z, p.payload) && |p.payload| >= 255
    requires Splits(BinaryWire(z), p, now) && |fragId| == FRAGMENT_ID_SIZE
    requires t == TransferOf(BinaryWire(z), p, now, fragId)
    requires OnAir(BinaryWire(z), p, now, fragId, t, r, sentAt) && ReadyFor(r, t)
    requires 0 < n <= |r.parts| && MissingBefore(r, t, map[], n) && NothingMissing(r, t, map[], n)
    ensures
      ReplyOf(r.outcomes[n - 1], BinaryWire(z).decode) == Returned(Some(AsReceived(z, p, now).WithTtl(0)))
      <==> PadsSize(WireSize(z, p)) || !ReadsAsPadding(p.payload)
  {
    BinaryWireLaws(z);
    SideConditionOfPayload(z, p, now);
    assert BinaryWire(z).raw(p, now) == Raw(z, p, now);
    SplitSendReassemble(BinaryWire(z), z, p, now, fragId, t, r, sentAt, n);
  }

  // ----- A packet that is lost -----

  /** A file on its way to a peer: 600 bytes of ciphertext, in an encoding of 630 bytes that is sent without padding. */
  function FilePacket(ciphertext: bytes): Packet {
    Packet(1, NOISE_ENCRYPTED, 7, 1, 0, Repeat(9, 8), Some(Repeat(8, 8)), ciphertext, None, None)
  }

  /** A ciphertext that zlib does not shorten and that happens to end in 0x01. */
  predicate IsUnlucky(z: Zlib, ciphertext: bytes) {
    |ciphertext| == 600 && ciphertext[599] == 1 && !Compresses(z, ciphertext)
  }

  lemma FilePacketSplits(z: Zlib, ciphertext: bytes, now: nat, fragId: bytes)
    requires Faithful(z) && IsUnlucky(z, ciphertext) && |fragId| == FRAGMENT_ID_SIZE
    ensures WireSize(z, FilePacket(ciphertext)) == 630
    ensures Sendable(BinaryWire(z), z, FilePacket(ciphertext), now)
    ensures Splits(BinaryWire(z), FilePacket(ciphertext), now)
  {
    var p := FilePacket(ciphertext);
    var w := BinaryWire(z);
    FieldSizes();
    BinaryWireSizesFollow(z);
    assert Encodable(z, p, now);
    var raw := w.raw(p, now).value;
    assert |raw| == 630;
    assert raw[629] == 1 by {
      RawEndsWithPayload(z, p, now);
      assert raw[30..] == ciphertext;
    }
    PadAddsBytes(raw);
    assert Pad(raw) == raw;
    assert |FullData(w, p, now)| >= 629;
    FewFragments(w, z, p, now, fragId);
  }

  /** Its fragments all arrive, in any order with any repeats and among anything else, and the receiver with room for
      them does not return the packet, whatever compressor is used. */
  lemma {:induction false} LostAlthoughComplete(
    z: Zlib, ciphertext: bytes, now: nat, fragId: bytes, t: Transfer, r: Trace, sentAt: seq<nat>, n: nat)
    requires Faithful(z) && IsUnlucky(z, ciphertext) && |fragId| == FRAGMENT_ID_SIZE
    requires Splits(BinaryWire(z), FilePacket(ciphertext), now)
    requires t == TransferOf(BinaryWire(z), FilePacket(ciphertext), now, fragId)
    requires OnAir(BinaryWire(z), FilePacket(ciphertext), now, fragId, t, r, sentAt) && ReadyFor(r, t)
    requires 0 < n <= |r.parts| && MissingBefore(r, t, map[], n) && NothingMissing(r, t, map[], n)
    ensures
      ReplyOf(r.outcomes[n - 1], BinaryWire(z).decode)
      != Returned(Some(AsReceived(z, FilePacket(ciphertext), now).WithTtl(0)))
  {
    FilePacketSplits(z, ciphertext, now, fragId);
    assert ciphertext[599..] == Repeat(1, 1);
    assert ReadsAsPadding(ciphertext);
    UnsignedReassembles(z, FilePacket(ciphertext), now, fragId, t, r, sentAt, n);
  }
}
