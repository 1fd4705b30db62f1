/** The codec as the rest of the stack sees it: two functions and the laws they obey. */
module Wire {
  import opened Bytes
  import opened Packets
  import opened Padding
  import opened Codec
  import opened CodecTheorems

  datatype Wire = Wire(raw: (Packet, nat) -> Option<bytes>, decode: bytes -> Option<Packet>)
  {
    /** encode with padding. */
    function Encode(p: Packet, now: nat): Option<bytes> {
      if raw(p, now).None? then None else Some(Pad(raw(p, now).value))
    }
  }

  /** The codec of this repository. */
  function BinaryWire(z: Zlib): Wire {
    Wire((p, now) => Raw(z, p, now), d => Decode(z, d))
  }

  /** What a packet needs to survive the wire. */
  predicate Sendable(w: Wire, z: Zlib, p: Packet, now: nat) {
    Transmissible(p) && WithinPayloadLimit(z, p) && w.raw(p, now).Some?
  }

  /** Decoding gives the packet back, padded or not. */
  ghost predicate RoundTrips(w: Wire, z: Zlib) {
    forall p: Packet, now: nat {:trigger Sendable(w, z, p, now)} :: Sendable(w, z, p, now) ==>
      && w.decode(Pad(w.raw(p, now).value)) == Some(AsReceived(z, p, now))
      && w.decode(w.raw(p, now).value) == Some(AsReceived(z, p, now))
  }

  /** An encoding cut short never passes for the packet: at best its signature is missing. */
  ghost predicate RejectsPrefixes(w: Wire, z: Zlib) {
    forall p: Packet, now: nat, d: bytes {:trigger Sendable(w, z, p, now), w.decode(d)} ::
      Sendable(w, z, p, now) && d < w.raw(p, now).value ==> OnlyUnsigned(z, p, now, w.decode(d))
  }

  /** Nothing, or the packet without the signature it had. */
  predicate OnlyUnsigned(z: Zlib, p: Packet, now: nat, decoded: Option<Packet>) {
    decoded.Some? ==> p.signature.Some? && decoded.value == AsReceived(z, p, now).(signature := None)
  }

  /** Two packets with the same wire fields have the same encoding. */
  ghost predicate EncodesFields(w: Wire, z: Zlib) {
    forall a: Packet, nowA: nat, b: Packet, nowB: nat {:trigger SameFields(a, nowA, b, nowB)} ::
      SameFields(a, nowA, b, nowB) ==>
      w.raw(a, nowA) == w.raw(b, nowB)
  }

  /** Lowering the TTL never makes a packet unencodable. */
  ghost predicate AllowsLowerTtl(w: Wire) {
    forall p: Packet, now: nat, ttl: nat {:trigger w.raw(p.WithTtl(ttl), now)} ::
      w.raw(p, now).Some? && ttl <= p.ttl ==> w.raw(p.WithTtl(ttl), now).Some?
  }

  /** Does every field of `p` fit its place on the wire? */
  predicate Encodable(z: Zlib, p: Packet, now: nat) {
    var blob := Blob(z, WireVersion(p), p.payload);
    blob.Some? && FieldsFit(p, now, |blob.value|)
  }

  /** The length of an encoding, field by field. */
  function WireSize(z: Zlib, p: Packet): nat {
    var blob := Blob(z, WireVersion(p), p.payload);
    HeaderSize(WireVersion(p)) + PEER_ID_SIZE + |RecipientBytes(p)| + |RouteBytes(p)|
    + (if blob.Some? then |blob.value| else 0) + |SignatureBytes(p)|
  }

  /** A packet encodes exactly when its fields fit, to a length that follows from them. */
  ghost predicate SizesFollow(w: Wire, z: Zlib) {
    forall p: Packet, now: nat {:trigger w.raw(p, now)} ::
      && (w.raw(p, now).Some? <==> Encodable(z, p, now))
      && (w.raw(p, now).Some? ==> |w.raw(p, now).value| == WireSize(z, p))
  }

  ghost predicate CodecLaws(w: Wire, z: Zlib) {
    RoundTrips(w, z) && RejectsPrefixes(w, z) && EncodesFields(w, z) && AllowsLowerTtl(w) && SizesFollow(w, z)
  }

  /** The repository's codec obeys the laws. */
  lemma BinaryWireLaws(z: Zlib)
    requires Faithful(z)
    ensures CodecLaws(BinaryWire(z), z)
  {
    BinaryWireRoundTrips(z);
    BinaryWireRejectsPrefixes(z);
    BinaryWireEncodesFields(z);
    BinaryWireAllowsLowerTtl(z);
    BinaryWireSizesFollow(z);
  }

  lemma BinaryWireRoundTrips(z: Zlib)
    requires Faithful(z)
    ensures RoundTrips(BinaryWire(z), z)
  {
    var w := BinaryWire(z);
    forall p: Packet, now: nat | Sendable(w, z, p, now)
      ensures w.decode(Pad(w.raw(p, now).value)) == Some(AsReceived(z, p, now))
      ensures w.decode(w.raw(p, now).value) == Some(AsReceived(z, p, now))
    {
      DecodeEncode(z, p, now);
      DecodeUnpadded(z, p, now);
    }
  }

  lemma BinaryWireRejectsPrefixes(z: Zlib)
    requires Faithful(z)
    ensures RejectsPrefixes(BinaryWire(z), z)
  {
    var w := BinaryWire(z);
    forall p: Packet, now: nat, d: bytes | Sendable(w, z, p, now) && d < w.raw(p, now).value
      ensures OnlyUnsigned(z, p, now, w.decode(d))
    {
      PrefixIsNotThePacket(z, p, now, d);
    }
  }

  lemma BinaryWireEncodesFields(z: Zlib)
    ensures EncodesFields(BinaryWire(z), z)
  {
    var w := BinaryWire(z);
    forall a: Packet, nowA: nat, b: Packet, nowB: nat | SameFields(a, nowA, b, nowB)
      ensures w.raw(a, nowA) == w.raw(b, nowB)
    {
      SameFieldsSameBytes(z, a, nowA, b, nowB);
    }
  }

  lemma BinaryWireAllowsLowerTtl(z: Zlib)
    ensures AllowsLowerTtl(BinaryWire(z))
  {
    var w := BinaryWire(z);
    forall p: Packet, now: nat, ttl: nat | w.raw(p, now).Some? && ttl <= p.ttl
      ensures w.raw(p.WithTtl(ttl), now).Some?
    {
    }
  }

  lemma BinaryWireSizesFollow(z: Zlib)
    ensures SizesFollow(BinaryWire(z), z)
  {
    var w := BinaryWire(z);
    forall p: Packet, now: nat
      ensures w.raw(p, now).Some? <==> Encodable(z, p, now)
      ensures w.raw(p, now).Some? ==> |w.raw(p, now).value| == WireSize(z, p)
    {
    }
  }

  /** Two packets that put the same fields on the wire. */
  predicate SameFields(a: Packet, nowA: nat, b: Packet, nowB: nat) {
    && WireVersion(a) == WireVersion(b) && a.packetType == b.packetType && a.ttl == b.ttl
    && Timestamp(a, nowA) == Timestamp(b, nowB)
    && a.recipient.Some? == b.recipient.Some? && a.signature.Some? == b.signature.Some? && a.HasRoute() == b.HasRoute()
    && PadPeerId(a.sender) == PadPeerId(b.sender) && RecipientBytes(a) == RecipientBytes(b)
    && RouteBytes(a) == RouteBytes(b) && a.payload == b.payload && SignatureBytes(a) == SignatureBytes(b)
  }

  lemma SameFieldsSameBytes(z: Zlib, a: Packet, nowA: nat, b: Packet, nowB: nat)
    requires SameFields(a, nowA, b, nowB)
    ensures Raw(z, a, nowA) == Raw(z, b, nowB)
  {
  }

  lemma RouteBytesReceived(z: Zlib, p: Packet, now: nat)
    ensures AsReceived(z, p, now).HasRoute() == p.HasRoute()
    ensures RouteBytes(AsReceived(z, p, now)) == RouteBytes(p)
  {
    if p.HasRoute() {
      var hops := WireHops(p.route.value);
      forall i | 0 <= i < |hops|
        ensures WireHops(hops)[i] == hops[i]
      {
        PeerIdUnchanged(hops[i]);
      }
      assert WireHops(hops) == hops;
    }
  }

  /** A received packet carries the fields that were sent, under any TTL and with or without the signature. */
  lemma ReceivedFields(z: Zlib, p: Packet, now: nat, ttl: nat, clock: nat)
    requires Transmissible(p) && Timestamp(p, now) != 0
    ensures
      var q := AsReceived(z, p, now);
      && SameFields(q.(ttl := ttl), clock, p.(ttl := ttl), now)
      && SameFields(q.(ttl := ttl, signature := None), clock, p.(ttl := ttl, signature := None), now)
  {
    var q := AsReceived(z, p, now);
    RouteBytesReceived(z, p, now);
    PeerIdUnchanged(PadPeerId(p.sender));
    if p.recipient.Some? {
      PeerIdUnchanged(PadPeerId(p.recipient.value));
    }
    assert RouteBytes(q.(ttl := ttl)) == RouteBytes(q) && RouteBytes(p.(ttl := ttl)) == RouteBytes(p);
    assert RouteBytes(q.(ttl := ttl, signature := None)) == RouteBytes(q);
    assert RouteBytes(p.(ttl := ttl, signature := None)) == RouteBytes(p);
  }

  lemma StampedNow(z: Zlib, p: Packet, now: nat)
    requires Raw(z, p, now).Some?
    ensures Raw(z, p, now).value[3..11] == BigEndian(Timestamp(p, now), 8)
    ensures FromBigEndian(Raw(z, p, now).value[3..11]) == Timestamp(p, now)
  {
    BigEndianRoundTrip(Timestamp(p, now), 8);
  }

  /** Encoding a received packet gives the received bytes back exactly when their timestamp was set:
      a zero timestamp is replaced by the relaying node's own clock. */
  lemma ReencodeExactly(z: Zlib, p: Packet, now: nat, clock: nat)
    requires Transmissible(p) && Raw(z, p, now).Some?
    ensures Raw(z, AsReceived(z, p, now), clock) == Raw(z, p, now) <==> Timestamp(p, now) != 0 || clock == 0
  {
    var q := AsReceived(z, p, now);
    assert q.(ttl := p.ttl) == q && p.(ttl := p.ttl) == p;
    if Timestamp(p, now) != 0 {
      ReceivedFields(z, p, now, p.ttl, clock);
      SameFieldsSameBytes(z, q, clock, p, now);
    } else if clock == 0 {
      UnstampedFields(z, p, now);
      SameFieldsSameBytes(z, q, clock, p, now);
    } else if Raw(z, q, clock).Some? {
      StampedNow(z, q, clock);
      StampedNow(z, p, now);
    }
  }

  lemma UnstampedFields(z: Zlib, p: Packet, now: nat)
    requires Transmissible(p) && Timestamp(p, now) == 0
    ensures SameFields(AsReceived(z, p, now), 0, p, now)
  {
    RouteBytesReceived(z, p, now);
    PeerIdUnchanged(PadPeerId(p.sender));
    if p.recipient.Some? {
      PeerIdUnchanged(PadPeerId(p.recipient.value));
    }
  }

}

/** A small compressor, so that the codec's hypothesis about zlib is seen to be satisfiable. */
module ZeroRuns {
  import opened Bytes
  import opened Packets
  import opened Codec

  predicate IsZeroRun(x: bytes) {
    4 <= |x| <= MAX_COMPRESSION_RATIO && forall i :: 0 <= i < |x| ==> x[i] == 0
  }

  /** A long run of zeros becomes a marker and its length; anything else is stored. */
  function Deflate(x: bytes): bytes {
    if IsZeroRun(x) then [1] + BigEndian(|x|, 2) else [0] + x
  }

  function Inflate(d: bytes): Option<bytes> {
    if d == [] then None
    else if d[0] == 0 then Some(d[1..])
    else if d[0] == 1 && |d| == 3 then Some(Repeat(0, FromBigEndian(d[1..])))
    else None
  }

  const CODEC: Zlib := Zlib(Deflate, Inflate, d => None, d => None)

  lemma ZeroRunsFaithful()
    ensures Faithful(CODEC)
    ensures Compresses(CODEC, Repeat(0, 1000))
  {
    forall x: bytes
      ensures CODEC.inflateZlib(CODEC.compress(x)) == Some(x)
      ensures |x| <= MAX_COMPRESSION_RATIO * |CODEC.compress(x)|
    {
      if IsZeroRun(x) {
        FieldSizes();
        BigEndianRoundTrip(|x|, 2);
        assert Deflate(x)[1..] == BigEndian(|x|, 2);
        assert Repeat(0, |x|) == x;
      } else {
        assert Deflate(x)[1..] == x;
      }
    }
    assert IsZeroRun(Repeat(0, 1000));
  }
}
