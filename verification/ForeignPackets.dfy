/** Packets compressed by other implementations: three formats are tried in turn, and which of them opens decides. */
module ForeignPackets {
  import opened Bytes
  import opened Packets
  import opened Padding
  import opened Codec
  import opened CodecTheorems

  /** The first of the three inflaters that opens `y` yields `x`. */
  predicate OpensTo(z: Zlib, y: bytes, x: bytes) {
    || z.inflateZlib(y) == Some(x)
    || (z.inflateZlib(y) == None && z.inflateRaw(y) == Some(x))
    || (z.inflateZlib(y) == None && z.inflateRaw(y) == None && z.inflateAny(y) == Some(x))
  }

  predicate NoneOpens(z: Zlib, y: bytes) {
    z.inflateZlib(y) == None && z.inflateRaw(y) == None && z.inflateAny(y) == None
  }

  /** An expansion that is not taken for a compression bomb. */
  predicate Expands(y: bytes, x: bytes) {
    y == [] || |x| <= 50_000 * |y|
  }

  /** A peer's compressed blob: the original size as the peer states it, and its own compressor's bytes. */
  function ForeignBlob(p: Packet, size: nat, y: bytes): bytes {
    BigEndian(size, LengthWidth(WireVersion(p))) + y
  }

  /** A peer's packet: header, ids, route, blob and signature, with the compressed flag set. */
  function ForeignBytes(p: Packet, now: nat, size: nat, y: bytes): bytes
    requires FieldsFit(p, now, |ForeignBlob(p, size, y)|)
  {
    Layout(p, now, Flags(p, true), ForeignBlob(p, size, y))
  }

  /** The packet behind it, with payload `x`. */
  function Foreign(p: Packet, now: nat, x: bytes): Packet {
    Packet(
      WireVersion(p), p.packetType, p.ttl, Timestamp(p, now), Flags(p, true),
      PadPeerId(p.sender),
      if p.recipient.Some? then Some(PadPeerId(p.recipient.value)) else None,
      x,
      ReceivedSignature(p),
      if p.HasRoute() then Some(WireHops(p.route.value)) else None)
  }

  /** A peer's packet that fits the format and the payload limit. */
  predicate IsForeign(p: Packet, now: nat, size: nat, y: bytes) {
    && Transmissible(p) && FieldsFit(p, now, |ForeignBlob(p, size, y)|)
    && |ForeignBlob(p, size, y)| <= 10_485_760
  }

  function ForeignHead(p: Packet, now: nat, size: nat, y: bytes): Head
    requires FieldsFit(p, now, |ForeignBlob(p, size, y)|)
  {
    Head(WireVersion(p), p.packetType, p.ttl, Timestamp(p, now), Flags(p, true), |ForeignBlob(p, size, y)|)
  }

  /** What inflating the blob comes to. */
  lemma InflatesExactly(z: Zlib, p: Packet, now: nat, size: nat, y: bytes)
    requires IsForeign(p, now, size, y)
    ensures
      var inflated := Inflate(z, ForeignHead(p, now, size, y), ForeignBlob(p, size, y));
      && (forall x :: OpensTo(z, y, x) && Expands(y, x) ==> inflated == Some(x))
      && (inflated == None <==> NoneOpens(z, y) || exists x :: OpensTo(z, y, x) && !Expands(y, x))
  {
    FlagBits(p, true);
    CutAppend(BigEndian(size, LengthWidth(WireVersion(p))), y);
    if !NoneOpens(z, y) {
      assert OpensTo(z, y, TryDecompress(z, y).value);
    }
  }

  lemma ForeignTail(z: Zlib, p: Packet, now: nat, size: nat, y: bytes, rest: bytes)
    requires IsForeign(p, now, size, y)
    ensures
      var h := ForeignHead(p, now, size, y);
      var a := Foreign(p, now, []);
      var inflated := Inflate(z, h, ForeignBlob(p, size, y));
      ParseTail(z, h, a.sender, a.recipient, a.route, ForeignBlob(p, size, y) + SignatureBytes(p) + rest)
      == if inflated.None? then None else Some(Parsed(Foreign(p, now, inflated.value), rest))
  {
    var h := ForeignHead(p, now, size, y);
    var blob := ForeignBlob(p, size, y);
    FlagBits(p, true);
    assert blob + SignatureBytes(p) + rest == blob + (SignatureBytes(p) + rest);
    CutAppend(blob, SignatureBytes(p) + rest);
    SignatureRoundTrip(p, h, rest);
  }

  lemma ForeignBody(z: Zlib, p: Packet, now: nat, size: nat, y: bytes, rest: bytes)
    requires IsForeign(p, now, size, y)
    ensures
      var h := ForeignHead(p, now, size, y);
      var blob := ForeignBlob(p, size, y);
      var inflated := Inflate(z, h, blob);
      ParseBody(z, h, PadPeerId(p.sender) + (RecipientBytes(p) + (RouteBytes(p) + (blob + SignatureBytes(p) + rest))))
      == if inflated.None? then None else Some(Parsed(Foreign(p, now, inflated.value), rest))
  {
    FlagBits(p, true);
    var d3 := ForeignBlob(p, size, y) + SignatureBytes(p) + rest;
    var d2 := RouteBytes(p) + d3;
    var d1 := RecipientBytes(p) + d2;
    CutAppend(PadPeerId(p.sender), d1);
    RecipientRoundTrip(p, d2);
    RouteRoundTrip(p, ForeignHead(p, now, size, y), d3);
    ForeignTail(z, p, now, size, y, rest);
  }

  lemma ParseForeign(z: Zlib, p: Packet, now: nat, size: nat, y: bytes, tail: bytes)
    requires IsForeign(p, now, size, y)
    ensures
      var inflated := Inflate(z, ForeignHead(p, now, size, y), ForeignBlob(p, size, y));
      Parse(z, ForeignBytes(p, now, size, y) + tail)
      == if inflated.None? then None else Some(Parsed(Foreign(p, now, inflated.value), tail))
  {
    var blob := ForeignBlob(p, size, y);
    var h := ForeignHead(p, now, size, y);
    var header := Header(h.version, h.packetType, h.ttl, h.timestamp, h.flags, h.payloadLen);
    var body := PadPeerId(p.sender) + (RecipientBytes(p) + (RouteBytes(p) + (blob + SignatureBytes(p) + tail)));
    Regroup(header, PadPeerId(p.sender), RecipientBytes(p), RouteBytes(p), blob, SignatureBytes(p), tail);
    HeadRoundTrip(h, body);
    ForeignBody(z, p, now, size, y, tail);
  }

  /** Cutting bytes off what does not parse does not help. */
  lemma PrefixFails(z: Zlib, d: bytes, n: nat)
    requires n <= |d| && Parse(z, d) == None
    ensures Parse(z, d[..n]) == None
  {
    assert d[..n] + d[n..] == d;
    if Parse(z, d[..n]).Some? {
      ParseExtended(z, d[..n], d[n..]);
    }
  }

  /** Nor does unpadding. */
  lemma UnpaddedFails(z: Zlib, d: bytes)
    requires Parse(z, d) == None
    ensures Decode(z, d) == None
  {
    if ReadsAsPadding(d) {
      PrefixFails(z, d, |d| - d[|d| - 1]);
    }
  }

  /** So the second attempt of decoding, on the bytes without what reads as padding, never helps. */
  lemma RetryNeverHelps(z: Zlib, d: bytes)
    ensures Decode(z, d) == DecodeRaw(z, d)
  {
    if Parse(z, d).None? {
      UnpaddedFails(z, d);
    }
  }

  /** A packet that announces a payload of more than 10 MiB is rejected, whatever follows. */
  lemma LongPayloadRejected(z: Zlib, d: bytes)
    requires |d| >= 16 && d[0] == 2 && FromBigEndian(d[12..16]) > 10_485_760
    ensures Decode(z, d) == None
  {
    assert ParseHead(d) == None;
    UnpaddedFails(z, d);
  }

  /** A peer's packet, padded or not, decodes to exactly the payload that the first inflater to open its blob yields;
      decoding fails if and only if none of the three opens it, or that payload is over 50,000 times the blob. */
  lemma ForeignDecodesExactly(z: Zlib, p: Packet, now: nat, size: nat, y: bytes)
    requires IsForeign(p, now, size, y)
    ensures forall x :: OpensTo(z, y, x) && Expands(y, x) ==>
              && Decode(z, ForeignBytes(p, now, size, y)) == Some(Foreign(p, now, x))
              && Decode(z, Pad(ForeignBytes(p, now, size, y))) == Some(Foreign(p, now, x))
    ensures Decode(z, ForeignBytes(p, now, size, y)) == None
       <==> NoneOpens(z, y) || exists x :: OpensTo(z, y, x) && !Expands(y, x)
    ensures Decode(z, Pad(ForeignBytes(p, now, size, y))) == None
       <==> NoneOpens(z, y) || exists x :: OpensTo(z, y, x) && !Expands(y, x)
  {
    InflatesExactly(z, p, now, size, y);
    DecodeForeign(z, p, now, size, y, []);
    DecodeForeign(z, p, now, size, y, Filler(|ForeignBytes(p, now, size, y)|));
    assert ForeignBytes(p, now, size, y) + [] == ForeignBytes(p, now, size, y);
  }

  lemma DecodeForeign(z: Zlib, p: Packet, now: nat, size: nat, y: bytes, tail: bytes)
    requires IsForeign(p, now, size, y)
    ensures
      var inflated := Inflate(z, ForeignHead(p, now, size, y), ForeignBlob(p, size, y));
      Decode(z, ForeignBytes(p, now, size, y) + tail)
      == if inflated.None? then None else Some(Foreign(p, now, inflated.value))
  {
    var d := ForeignBytes(p, now, size, y) + tail;
    ParseForeign(z, p, now, size, y, tail);
    if Parse(z, d).None? {
      UnpaddedFails(z, d);
    }
  }
}
