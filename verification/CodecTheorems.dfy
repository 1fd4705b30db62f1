/** What the packet codec guarantees: round trip, indifference to trailing bytes, no premature decode. */
module CodecTheorems {
  import opened Bytes
  import opened Packets
  import opened Padding
  import opened Codec

  function ReceivedSignature(p: Packet): Option<bytes> {
    match p.signature
    case None => None
    case Some(_) => Some(SignatureBytes(p))
  }

  /** The packet a receiver reconstructs: ids cut or filled to eight bytes, an empty route dropped, flags filled in. */
  function AsReceived(z: Zlib, p: Packet, now: nat): Packet {
    Packet(
      WireVersion(p), p.packetType, p.ttl, Timestamp(p, now), Flags(p, Compresses(z, p.payload)),
      PadPeerId(p.sender),
      if p.recipient.Some? then Some(PadPeerId(p.recipient.value)) else None,
      p.payload,
      ReceivedSignature(p),
      if p.HasRoute() then Some(WireHops(p.route.value)) else None)
  }

  /** What packet.py asks of a packet: a known version, and a full signature if there is one. */
  predicate Transmissible(p: Packet) {
    WireVersion(p) in {1, 2} && (p.signature.Some? ==> |p.signature.value| >= SIGNATURE_SIZE)
  }

  predicate WithinPayloadLimit(z: Zlib, p: Packet) {
    var blob := Blob(z, WireVersion(p), p.payload);
    blob.Some? && |blob.value| <= MAX_PAYLOAD_LENGTH
  }

  /** A packet whose fields already have their wire shape. */
  predicate WellFormed(p: Packet) {
    && Transmissible(p)
    && p.version == WireVersion(p)
    && p.timestamp > 0
    && |p.sender| == PEER_ID_SIZE
    && (p.recipient.Some? ==> |p.recipient.value| == PEER_ID_SIZE)
    && (p.signature.Some? ==> |p.signature.value| == SIGNATURE_SIZE)
    && (p.route.Some? ==>
          1 <= |p.route.value| <= 255 && forall i :: 0 <= i < |p.route.value| ==> |p.route.value[i]| == PEER_ID_SIZE)
  }

  lemma PeerIdUnchanged(id: bytes)
    ensures PadPeerId(id) == id <==> |id| == PEER_ID_SIZE
  {
    if |id| == PEER_ID_SIZE {
      assert id[..PEER_ID_SIZE] == id;
    }
  }

  lemma WellFormedUnchanged(z: Zlib, p: Packet, now: nat)
    requires WellFormed(p)
    ensures AsReceived(z, p, now) == p.(flags := AsReceived(z, p, now).flags)
  {
    PeerIdUnchanged(p.sender);
    if p.recipient.Some? {
      PeerIdUnchanged(p.recipient.value);
    }
    if p.route.Some? {
      forall i | 0 <= i < |p.route.value|
        ensures WireHops(p.route.value)[i] == p.route.value[i]
      {
        PeerIdUnchanged(p.route.value[i]);
      }
      assert WireHops(p.route.value) == p.route.value;
    }
  }

  // ----- Field by field -----

  lemma FlagBits(p: Packet, compressed: bool)
    ensures HasBit(Flags(p, compressed), HAS_RECIPIENT) == p.recipient.Some?
    ensures HasBit(Flags(p, compressed), HAS_SIGNATURE) == p.signature.Some?
    ensures HasBit(Flags(p, compressed), IS_COMPRESSED) == compressed
    ensures HasBit(Flags(p, compressed), HAS_ROUTE) == p.HasRoute()
  {
  }

  lemma HeadRoundTrip(h: Head, rest: bytes)
    requires h.version == 1 || h.version == 2
    requires h.timestamp < Pow256(8) && h.payloadLen < Pow256(LengthWidth(h.version))
    requires h.payloadLen <= MAX_PAYLOAD_LENGTH
    requires |rest| >= PEER_ID_SIZE
    ensures ParseHead(Header(h.version, h.packetType, h.ttl, h.timestamp, h.flags, h.payloadLen) + rest)
         == Some((h, rest))
  {
    var head := Header(h.version, h.packetType, h.ttl, h.timestamp, h.flags, h.payloadLen);
    var size := HeaderSize(h.version);
    assert |head| == size;
    var d := head + rest;
    assert d[3..11] == BigEndian(h.timestamp, 8);
    assert d[12..size] == BigEndian(h.payloadLen, LengthWidth(h.version));
    assert d[size..] == rest;
    BigEndianRoundTrip(h.timestamp, 8);
    BigEndianRoundTrip(h.payloadLen, LengthWidth(h.version));
  }

  lemma HeadTooLong(h: Head, rest: bytes)
    requires h.payloadLen < Pow256(LengthWidth(h.version))
    requires h.payloadLen > MAX_PAYLOAD_LENGTH
    ensures ParseHead(Header(h.version, h.packetType, h.ttl, h.timestamp, h.flags, h.payloadLen) + rest) == None
  {
    var head := Header(h.version, h.packetType, h.ttl, h.timestamp, h.flags, h.payloadLen);
    var size := HeaderSize(h.version);
    assert (head + rest)[12..size] == BigEndian(h.payloadLen, LengthWidth(h.version));
    BigEndianRoundTrip(h.payloadLen, LengthWidth(h.version));
  }

  lemma {:induction false} HopsRoundTrip(hops: seq<bytes>, rest: bytes)
    requires forall h :: h in hops ==> |h| == PEER_ID_SIZE
    ensures CutHops(Join(hops) + rest, |hops|) == Some((hops, rest))
  {
    if hops == [] {
      assert Join(hops) + rest == rest;
    } else {
      assert Join(hops) + rest == hops[0] + (Join(hops[1..]) + rest);
      CutAppend(hops[0], Join(hops[1..]) + rest);
      HopsRoundTrip(hops[1..], rest);
      assert [hops[0]] + hops[1..] == hops;
    }
  }

  lemma CountedFirst(n: byte, list: bytes, rest: bytes)
    ensures ([n] + list + rest)[0] == n && ([n] + list + rest)[1..] == list + rest
  {
  }

  lemma RouteRoundTrip(p: Packet, h: Head, rest: bytes)
    requires HasBit(h.flags, HAS_ROUTE) == p.HasRoute()
    requires h.version == WireVersion(p)
    ensures CutRoute(h, RouteBytes(p) + rest)
         == Some((if p.HasRoute() then Some(WireHops(p.route.value)) else None, rest))
  {
    if p.HasRoute() {
      var hops := WireHops(p.route.value);
      CountedFirst(|hops|, Join(hops), rest);
      HopsRoundTrip(hops, rest);
    } else {
      assert RouteBytes(p) + rest == rest;
    }
  }

  lemma BlobRoundTrip(z: Zlib, p: Packet, h: Head)
    requires Faithful(z)
    requires h.version == WireVersion(p)
    requires HasBit(h.flags, IS_COMPRESSED) == Compresses(z, p.payload)
    requires Blob(z, h.version, p.payload).Some?
    ensures Inflate(z, h, Blob(z, h.version, p.payload).value) == Some(p.payload)
  {
    if Compresses(z, p.payload) {
      CutAppend(BigEndian(|p.payload|, LengthWidth(h.version)), z.compress(p.payload));
    }
  }

  lemma SignatureRoundTrip(p: Packet, h: Head, rest: bytes)
    requires HasBit(h.flags, HAS_SIGNATURE) == p.signature.Some?
    requires p.signature.Some? ==> |p.signature.value| >= SIGNATURE_SIZE
    ensures CutSignature(h, SignatureBytes(p) + rest) == (ReceivedSignature(p), rest)
  {
    var s := SignatureBytes(p);
    assert (s + rest)[..|s|] == s && (s + rest)[|s|..] == rest;
  }

  lemma RecipientRoundTrip(p: Packet, rest: bytes)
    ensures CutIf(p.recipient.Some?, RecipientBytes(p) + rest, PEER_ID_SIZE)
         == Some((if p.recipient.Some? then Some(PadPeerId(p.recipient.value)) else None, rest))
  {
    if p.recipient.Some? {
      CutAppend(PadPeerId(p.recipient.value), rest);
    } else {
      assert RecipientBytes(p) + rest == rest;
    }
  }

  function SentHead(z: Zlib, p: Packet, now: nat, blob: bytes): Head
    requires FieldsFit(p, now, |blob|)
  {
    Head(WireVersion(p), p.packetType, p.ttl, Timestamp(p, now), Flags(p, Compresses(z, p.payload)), |blob|)
  }

  lemma TailRoundTrip(z: Zlib, p: Packet, now: nat, blob: bytes, rest: bytes)
    requires Faithful(z) && Transmissible(p)
    requires Blob(z, WireVersion(p), p.payload) == Some(blob) && FieldsFit(p, now, |blob|)
    ensures
      var a := AsReceived(z, p, now);
      ParseTail(z, SentHead(z, p, now, blob), a.sender, a.recipient, a.route, blob + SignatureBytes(p) + rest)
      == Some(Parsed(a, rest))
  {
    var h := SentHead(z, p, now, blob);
    FlagBits(p, Compresses(z, p.payload));
    assert blob + SignatureBytes(p) + rest == blob + (SignatureBytes(p) + rest);
    CutAppend(blob, SignatureBytes(p) + rest);
    BlobRoundTrip(z, p, h);
    SignatureRoundTrip(p, h, rest);
  }

  lemma BodyRoundTrip(z: Zlib, p: Packet, now: nat, blob: bytes, rest: bytes)
    requires Faithful(z) && Transmissible(p)
    requires Blob(z, WireVersion(p), p.payload) == Some(blob) && FieldsFit(p, now, |blob|)
    ensures
      ParseBody(z, SentHead(z, p, now, blob),
                PadPeerId(p.sender) + (RecipientBytes(p) + (RouteBytes(p) + (blob + SignatureBytes(p) + rest))))
      == Some(Parsed(AsReceived(z, p, now), rest))
  {
    FlagBits(p, Compresses(z, p.payload));
    var d3 := blob + SignatureBytes(p) + rest;
    var d2 := RouteBytes(p) + d3;
    var d1 := RecipientBytes(p) + d2;
    CutAppend(PadPeerId(p.sender), d1);
    RecipientRoundTrip(p, d2);
    RouteRoundTrip(p, SentHead(z, p, now, blob), d3);
    TailRoundTrip(z, p, now, blob, rest);
  }

  // ----- Round trip -----

  lemma Regroup(a: bytes, b: bytes, c: bytes, d: bytes, e: bytes, f: bytes, tail: bytes)
    ensures a + b + c + d + e + f + tail == a + (b + (c + (d + (e + f + tail))))
  {
  }

  /** Parsing an encoding gives the packet back and leaves whatever follows it. */
  lemma ParseEncoding(z: Zlib, p: Packet, now: nat, tail: bytes)
    requires Faithful(z) && Transmissible(p) && WithinPayloadLimit(z, p)
    requires Raw(z, p, now).Some?
    ensures Parse(z, Raw(z, p, now).value + tail) == Some(Parsed(AsReceived(z, p, now), tail))
  {
    var blob := Blob(z, WireVersion(p), p.payload).value;
    var h := SentHead(z, p, now, blob);
    var header := Header(h.version, h.packetType, h.ttl, h.timestamp, h.flags, h.payloadLen);
    var body := PadPeerId(p.sender) + (RecipientBytes(p) + (RouteBytes(p) + (blob + SignatureBytes(p) + tail)));
    Regroup(header, PadPeerId(p.sender), RecipientBytes(p), RouteBytes(p), blob, SignatureBytes(p), tail);
    HeadRoundTrip(h, body);
    BodyRoundTrip(z, p, now, blob, tail);
  }

  /** Every transmissible packet within the payload limit survives the wire. */
  lemma DecodeEncode(z: Zlib, p: Packet, now: nat)
    requires Faithful(z) && Transmissible(p) && WithinPayloadLimit(z, p)
    requires Raw(z, p, now).Some?
    ensures Decode(z, Encode(z, p, now).value) == Some(AsReceived(z, p, now))
  {
    var raw := Raw(z, p, now).value;
    ParseEncoding(z, p, now, Filler(|raw|));
  }

  /** It does so unpadded as well. */
  lemma DecodeUnpadded(z: Zlib, p: Packet, now: nat)
    requires Faithful(z) && Transmissible(p) && WithinPayloadLimit(z, p)
    requires Raw(z, p, now).Some?
    ensures Decode(z, Raw(z, p, now).value) == Some(AsReceived(z, p, now))
  {
    ParseEncoding(z, p, now, []);
    assert Raw(z, p, now).value + [] == Raw(z, p, now).value;
  }

  /** In particular a well-formed packet comes back unchanged but for the flags the codec fills in. */
  lemma WellFormedRoundTrip(z: Zlib, p: Packet, now: nat)
    requires Faithful(z) && WellFormed(p) && WithinPayloadLimit(z, p)
    requires Encode(z, p, now).Some?
    ensures
      var back := Decode(z, Encode(z, p, now).value);
      back.Some? && back.value == p.(flags := back.value.flags)
  {
    DecodeEncode(z, p, now);
    WellFormedUnchanged(z, p, now);
  }

  // ----- Trailing bytes -----

  lemma {:induction false} HopsExtended(d: bytes, count: nat, tail: bytes)
    requires CutHops(d, count).Some?
    ensures CutHops(d + tail, count) == Some((CutHops(d, count).value.0, CutHops(d, count).value.1 + tail))
  {
    if count > 0 {
      CutExtended(d, PEER_ID_SIZE, tail);
      HopsExtended(d[PEER_ID_SIZE..], count - 1, tail);
    }
  }

  lemma RouteExtended(h: Head, d: bytes, tail: bytes)
    requires CutRoute(h, d).Some?
    ensures CutRoute(h, d + tail) == Some((CutRoute(h, d).value.0, CutRoute(h, d).value.1 + tail))
  {
    if HasBit(h.flags, HAS_ROUTE) && h.version >= 2 {
      assert (d + tail)[1..] == d[1..] + tail;
      HopsExtended(d[1..], d[0], tail);
    }
  }

  /** What a parse becomes when `tail` follows the data: a cut-short signature may now be read. */
  function Extended(q: Parsed, tail: bytes): Parsed {
    var p := q.packet;
    var rest := q.rest + tail;
    if p.signature.None? && HasBit(p.flags, HAS_SIGNATURE) && |rest| >= SIGNATURE_SIZE
    then Parsed(p.(signature := Some(rest[..SIGNATURE_SIZE])), rest[SIGNATURE_SIZE..])
    else Parsed(p, rest)
  }

  lemma TailExtended(z: Zlib, h: Head, sender: bytes, recipient: Option<bytes>, route: Option<seq<bytes>>,
                     d: bytes, tail: bytes)
    requires ParseTail(z, h, sender, recipient, route, d).Some?
    ensures ParseTail(z, h, sender, recipient, route, d + tail)
         == Some(Extended(ParseTail(z, h, sender, recipient, route, d).value, tail))
  {
    CutExtended(d, h.payloadLen, tail);
    var d1 := d[h.payloadLen..];
    if |d1| >= SIGNATURE_SIZE {
      CutExtended(d1, SIGNATURE_SIZE, tail);
    }
  }

  lemma BodyExtended(z: Zlib, h: Head, d: bytes, tail: bytes)
    requires ParseBody(z, h, d).Some?
    ensures ParseBody(z, h, d + tail) == Some(Extended(ParseBody(z, h, d).value, tail))
  {
    CutExtended(d, PEER_ID_SIZE, tail);
    var d1 := d[PEER_ID_SIZE..];
    if HasBit(h.flags, HAS_RECIPIENT) {
      CutExtended(d1, PEER_ID_SIZE, tail);
    }
    var (recipient, d2) := CutIf(HasBit(h.flags, HAS_RECIPIENT), d1, PEER_ID_SIZE).value;
    RouteExtended(h, d2, tail);
    var (route, d3) := CutRoute(h, d2).value;
    TailExtended(z, h, d[..PEER_ID_SIZE], recipient, route, d3, tail);
  }

  lemma SliceExtended(d: bytes, tail: bytes, from: nat, to: nat)
    requires from <= to <= |d|
    ensures (d + tail)[from..to] == d[from..to]
  {
  }

  lemma ParseExtended(z: Zlib, d: bytes, tail: bytes)
    requires Parse(z, d).Some?
    ensures Parse(z, d + tail) == Some(Extended(Parse(z, d).value, tail))
  {
    var (h, rest) := ParseHead(d).value;
    var size := HeaderSize(d[0]);
    SliceExtended(d, tail, 12, size);
    SliceExtended(d, tail, 3, 11);
    CutExtended(d, size, tail);
    BodyExtended(z, h, rest, tail);
  }

  predicate SignatureCutShort(p: Packet) {
    HasBit(p.flags, HAS_SIGNATURE) && p.signature.None?
  }

  /** Trailing bytes never matter, except to a packet that announces a signature it is too short to hold. */
  lemma TrailingBytesIgnored(z: Zlib, d: bytes)
    requires DecodeRaw(z, d).Some?
    ensures (forall tail: bytes :: DecodeRaw(z, d + tail) == DecodeRaw(z, d))
       <==> !SignatureCutShort(DecodeRaw(z, d).value)
  {
    forall tail: bytes
      ensures !SignatureCutShort(DecodeRaw(z, d).value) ==> DecodeRaw(z, d + tail) == DecodeRaw(z, d)
    {
      ParseExtended(z, d, tail);
    }
    var zeros := Repeat(0, SIGNATURE_SIZE);
    ParseExtended(z, d, zeros);
    assert SignatureCutShort(DecodeRaw(z, d).value) ==> DecodeRaw(z, d + zeros) != DecodeRaw(z, d);
  }

  // ----- Cut encodings -----

  /** A proper prefix of an encoding decodes at all only if the cut falls inside the signature,
      and then to the packet without its signature. */
  lemma PrefixIsNotThePacket(z: Zlib, p: Packet, now: nat, d: bytes)
    requires Faithful(z) && Transmissible(p) && WithinPayloadLimit(z, p)
    requires Raw(z, p, now).Some?
    requires d < Raw(z, p, now).value
    ensures Decode(z, d).Some? ==>
              p.signature.Some? && Decode(z, d).value == AsReceived(z, p, now).(signature := None)
  {
    RawPrefix(z, p, now, d);
    RawPrefix(z, p, now, Unpad(d));
  }

  lemma RawPrefix(z: Zlib, p: Packet, now: nat, d: bytes)
    requires Faithful(z) && Transmissible(p) && WithinPayloadLimit(z, p)
    requires Raw(z, p, now).Some?
    requires d < Raw(z, p, now).value
    ensures DecodeRaw(z, d).Some? ==>
              p.signature.Some? && DecodeRaw(z, d).value == AsReceived(z, p, now).(signature := None)
  {
    if DecodeRaw(z, d).Some? {
      var raw := Raw(z, p, now).value;
      var tail := raw[|d|..];
      assert d + tail == raw && tail != [];
      ParseExtended(z, d, tail);
      ParseEncoding(z, p, now, []);
      assert raw + [] == raw;
      ExtendedToNothing(Parse(z, d).value, tail, AsReceived(z, p, now));
    }
  }

  lemma ExtendedToNothing(q: Parsed, tail: bytes, whole: Packet)
    requires Extended(q, tail) == Parsed(whole, []) && tail != []
    ensures whole.signature.Some? && q.packet == whole.(signature := None)
  {
  }

  lemma HeaderPrefix(p: Packet, now: nat, flags: byte, blob: bytes, d: bytes)
    requires FieldsFit(p, now, |blob|)
    requires d <= Layout(p, now, flags, blob)
    requires WireVersion(p) !in {1, 2} || |blob| > MAX_PAYLOAD_LENGTH
    ensures ParseHead(d) == None
  {
    var header := Header(WireVersion(p), p.packetType, p.ttl, Timestamp(p, now), flags, |blob|);
    if |d| >= HeaderSize(WireVersion(p)) + PEER_ID_SIZE {
      var rest := d[|header|..];
      assert d == header + rest;
      if WireVersion(p) in {1, 2} {
        HeadTooLong(Head(WireVersion(p), p.packetType, p.ttl, Timestamp(p, now), flags, |blob|), rest);
      }
    } else if |d| > 0 {
      assert d[0] == header[0];
    }
  }

  /** The version and the payload limit are the only reasons an encoding with a full signature is lost. */
  lemma DecodeEncodeExactly(z: Zlib, p: Packet, now: nat)
    requires Faithful(z)
    requires p.signature.Some? ==> |p.signature.value| >= SIGNATURE_SIZE
    requires Raw(z, p, now).Some?
    ensures Decode(z, Encode(z, p, now).value) == Some(AsReceived(z, p, now))
       <==> WireVersion(p) in {1, 2} && WithinPayloadLimit(z, p)
  {
    if WireVersion(p) in {1, 2} && WithinPayloadLimit(z, p) {
      DecodeEncode(z, p, now);
    } else {
      var raw := Raw(z, p, now).value;
      var blob := Blob(z, WireVersion(p), p.payload).value;
      var flags := Flags(p, Compresses(z, p.payload));
      PaddedHeader(p, now, flags, blob, Pad(raw));
      PaddedHeader(p, now, flags, blob, Unpad(Pad(raw)));
    }
  }

  lemma PaddedHeader(p: Packet, now: nat, flags: byte, blob: bytes, d: bytes)
    requires FieldsFit(p, now, |blob|)
    requires d <= Pad(Layout(p, now, flags, blob))
    requires WireVersion(p) !in {1, 2} || |blob| > MAX_PAYLOAD_LENGTH
    ensures ParseHead(d) == None
  {
    var raw := Layout(p, now, flags, blob);
    if |d| <= |raw| {
      HeaderPrefix(p, now, flags, blob, d);
    } else if WireVersion(p) in {1, 2} {
      var header := Header(WireVersion(p), p.packetType, p.ttl, Timestamp(p, now), flags, |blob|);
      assert d == header + d[|header|..];
      HeadTooLong(Head(WireVersion(p), p.packetType, p.ttl, Timestamp(p, now), flags, |blob|), d[|header|..]);
    } else {
      assert d[0] == raw[0];
    }
  }

  // ----- What comes off the wire -----

  /** The shape of every decoded packet. */
  predicate FromWire(p: Packet) {
    && p.version in {1, 2} && p.packetType < 256 && p.ttl < 256 && p.timestamp < Pow256(8) && p.flags < 256
    && |p.sender| == PEER_ID_SIZE
    && (p.recipient.Some? ==> |p.recipient.value| == PEER_ID_SIZE)
    && (p.route.Some? ==> p.version == 2 && AreHops(p.route.value))
    && (p.signature.Some? ==> |p.signature.value| == SIGNATURE_SIZE)
  }

  /** A list of hops that a count byte can announce. */
  predicate AreHops(hops: seq<bytes>) {
    |hops| <= 255 && forall i :: 0 <= i < |hops| ==> |hops[i]| == PEER_ID_SIZE
  }

  lemma {:induction false} CutHopsFromWire(d: bytes, count: nat)
    requires CutHops(d, count).Some?
    ensures |CutHops(d, count).value.0| == count
    ensures forall i :: 0 <= i < count ==> |CutHops(d, count).value.0[i]| == PEER_ID_SIZE
  {
    if count > 0 {
      CutHopsFromWire(d[PEER_ID_SIZE..], count - 1);
    }
  }

  lemma DecodedFromWire(z: Zlib, d: bytes)
    requires Decode(z, d).Some?
    ensures FromWire(Decode(z, d).value)
  {
    ParsedFromWire(z, d);
    ParsedFromWire(z, Unpad(d));
  }

  lemma ParsedFromWire(z: Zlib, d: bytes)
    ensures DecodeRaw(z, d).Some? ==> FromWire(DecodeRaw(z, d).value)
  {
    if DecodeRaw(z, d).Some? {
      var (h, rest) := ParseHead(d).value;
      BigEndianOnto(d[3..11]);
      BodyFromWire(z, h, rest);
    }
  }

  lemma BodyFromWire(z: Zlib, h: Head, d: bytes)
    requires h.version in {1, 2} && h.timestamp < Pow256(8) && ParseBody(z, h, d).Some?
    ensures FromWire(ParseBody(z, h, d).value.packet)
  {
    var (recipient, d2) := CutIf(HasBit(h.flags, HAS_RECIPIENT), d[PEER_ID_SIZE..], PEER_ID_SIZE).value;
    RouteFromWire(h, d2);
  }

  lemma RouteFromWire(h: Head, d: bytes)
    requires CutRoute(h, d).Some?
    ensures var route := CutRoute(h, d).value.0; route.Some? ==> h.version >= 2 && AreHops(route.value)
  {
    if HasBit(h.flags, HAS_ROUTE) && h.version >= 2 {
      CutHopsFromWire(d[1..], d[0]);
    }
  }
}
