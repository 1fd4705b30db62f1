/** The binary packet codec: encode, decode and _decode_raw of protocol/codec.py. */
module Codec {
  import opened Bytes
  import opened Seqs
  import opened Packets
  import opened Padding

  /** zlib as seen by the codec: one compressor and the three window settings that are tried in turn. */
  datatype Zlib = Zlib(
    compress: bytes -> bytes,
    inflateZlib: bytes -> Option<bytes>,
    inflateRaw: bytes -> Option<bytes>,
    inflateAny: bytes -> Option<bytes>)

  /** What the codec relies on: inflating undoes compressing, within the expansion limit. */
  ghost predicate Faithful(z: Zlib) {
    forall x: bytes ::
      z.inflateZlib(z.compress(x)) == Some(x) && |x| <= MAX_COMPRESSION_RATIO * |z.compress(x)|
  }

  function TryDecompress(z: Zlib, data: bytes): Option<bytes> {
    if z.inflateZlib(data).Some? then z.inflateZlib(data)
    else if z.inflateRaw(data).Some? then z.inflateRaw(data)
    else z.inflateAny(data)
  }

  // ----- Encoding -----

  function PadPeerId(id: bytes): (padded: bytes)
    ensures |padded| == PEER_ID_SIZE
  {
    if |id| >= PEER_ID_SIZE then id[..PEER_ID_SIZE] else id + Repeat(0, PEER_ID_SIZE - |id|)
  }

  function WireVersion(p: Packet): nat {
    if p.HasRoute() then 2 else p.version
  }

  function LengthWidth(version: nat): nat {
    if version >= 2 then 4 else 2
  }

  function HeaderSize(version: nat): nat {
    if version >= 2 then HEADER_V2_SIZE else HEADER_V1_SIZE
  }

  predicate Compresses(z: Zlib, payload: bytes) {
    |payload| > COMPRESSION_THRESHOLD_BYTES && |z.compress(payload)| < |payload|
  }

  /** The payload bytes on the wire, None when the original size overflows its prefix. */
  function Blob(z: Zlib, version: nat, payload: bytes): Option<bytes> {
    if !Compresses(z, payload) then Some(payload)
    else if |payload| >= Pow256(LengthWidth(version)) then None
    else Some(BigEndian(|payload|, LengthWidth(version)) + z.compress(payload))
  }

  function Flags(p: Packet, compressed: bool): (f: nat)
    ensures f < 16
  {
    (if p.recipient.Some? then HAS_RECIPIENT else 0)
    + (if p.signature.Some? then HAS_SIGNATURE else 0)
    + (if compressed then IS_COMPRESSED else 0)
    + (if p.HasRoute() then HAS_ROUTE else 0)
  }

  function Timestamp(p: Packet, now: nat): nat {
    if p.timestamp != 0 then p.timestamp else now
  }

  /** The hops that reach the wire: at most 255, each eight bytes. */
  function WireHops(route: seq<bytes>): (hops: seq<bytes>)
    ensures |hops| <= 255
    ensures forall h :: h in hops ==> |h| == PEER_ID_SIZE
  {
    var kept := if |route| > 255 then route[..255] else route;
    seq(|kept|, i requires 0 <= i < |kept| => PadPeerId(kept[i]))
  }

  function Header(version: byte, packetType: byte, ttl: byte, timestamp: nat, flags: byte, payloadLen: nat): bytes {
    [version, packetType, ttl] + BigEndian(timestamp, 8) + [flags] + BigEndian(payloadLen, LengthWidth(version))
  }

  function RecipientBytes(p: Packet): bytes {
    if p.recipient.Some? then PadPeerId(p.recipient.value) else []
  }

  function RouteBytes(p: Packet): bytes {
    if p.HasRoute() then
      var hops := WireHops(p.route.value);
      [|hops|] + Join(hops)
    else []
  }

  function SignatureBytes(p: Packet): bytes {
    match p.signature
    case None => []
    case Some(s) => if |s| > SIGNATURE_SIZE then s[..SIGNATURE_SIZE] else s
  }

  /** Every header field fits its width; otherwise struct.pack raises and encoding yields None. */
  predicate FieldsFit(p: Packet, now: nat, payloadLen: nat) {
    && WireVersion(p) < 256 && p.packetType < 256 && p.ttl < 256
    && Timestamp(p, now) < Pow256(8)
    && payloadLen < Pow256(LengthWidth(WireVersion(p)))
  }

  function Layout(p: Packet, now: nat, flags: byte, blob: bytes): bytes
    requires FieldsFit(p, now, |blob|)
  {
    Header(WireVersion(p), p.packetType, p.ttl, Timestamp(p, now), flags, |blob|)
    + PadPeerId(p.sender) + RecipientBytes(p) + RouteBytes(p) + blob + SignatureBytes(p)
  }

  /** The unpadded encoding of `p`; `now` stands in for an unset timestamp. */
  function Raw(z: Zlib, p: Packet, now: nat): Option<bytes> {
    var version := WireVersion(p);
    var blob :- Blob(z, version, p.payload);
    if !FieldsFit(p, now, |blob|) then None
    else
      Some(Layout(p, now, Flags(p, Compresses(z, p.payload)), blob))
  }

  function Encode(z: Zlib, p: Packet, now: nat): Option<bytes> {
    var raw :- Raw(z, p, now);
    Some(Pad(raw))
  }

  method EncodeBlob(z: Zlib, version: nat, payload: bytes) returns (r: Option<bytes>, compressed: bool)
    ensures r == Blob(z, version, payload)
    ensures compressed == (Compresses(z, payload) && r.Some?)
  {
    compressed := false;
    r := Some(payload);
    if |payload| > COMPRESSION_THRESHOLD_BYTES {
      var c := z.compress(payload);
      if |c| < |payload| {
        var width := if version < 2 then 2 else 4;
        if |payload| >= Pow256(width) {
          return None, false;
        }
        return Some(BigEndian(|payload|, width) + c), true;
      }
    }
  }

  lemma JoinNext(head: bytes, hops: seq<bytes>, i: nat)
    requires i < |hops|
    ensures head + Join(hops[..i + 1]) == head + Join(hops[..i]) + hops[i]
  {
    assert hops[..i + 1] == hops[..i] + [hops[i]];
    JoinSnoc(hops[..i], hops[i]);
  }

  method EncodeRoute(p: Packet) returns (body: bytes)
    requires p.HasRoute()
    ensures body == RouteBytes(p)
  {
    var route := if |p.route.value| > 255 then p.route.value[..255] else p.route.value;
    body := [|route|];
    ghost var hops := WireHops(p.route.value);
    for i := 0 to |route|
      invariant body == [|route|] + Join(hops[..i])
    {
      body := body + PadPeerId(route[i]);
      JoinNext([|route|], hops, i);
    }
    assert hops[..|route|] == hops;
  }

  method EncodeFlags(p: Packet, compressed: bool) returns (flags: nat)
    ensures flags == Flags(p, compressed)
  {
    flags := 0;
    if p.recipient.Some? {
      flags := flags + HAS_RECIPIENT;
    }
    if p.signature.Some? {
      flags := flags + HAS_SIGNATURE;
    }
    if compressed {
      flags := flags + IS_COMPRESSED;
    }
    if p.HasRoute() {
      flags := flags + HAS_ROUTE;
    }
  }

  /** The header, then a body that grows field by field. */
  method EncodeBody(p: Packet, now: nat, flags: byte, payload: bytes) returns (body: bytes)
    requires FieldsFit(p, now, |payload|)
    ensures body == Layout(p, now, flags, payload)
  {
    body := Header(WireVersion(p), p.packetType, p.ttl, Timestamp(p, now), flags, |payload|);
    body := body + PadPeerId(p.sender);
    AppendNothing(body);
    if p.recipient.Some? {
      body := body + PadPeerId(p.recipient.value);
    }
    AppendNothing(body);
    if p.HasRoute() {
      var route := EncodeRoute(p);
      body := body + route;
    }
    body := body + payload;
    AppendNothing(body);
    if p.signature.Some? {
      var s := p.signature.value;
      body := body + (if |s| > SIGNATURE_SIZE then s[..SIGNATURE_SIZE] else s);
    }
  }

  /** encode: flags are collected while the payload is prepared, then the fields are laid out. */
  method EncodePacket(z: Zlib, p: Packet, now: nat, pad: bool) returns (r: Option<bytes>)
    ensures r == if pad then Encode(z, p, now) else Raw(z, p, now)
  {
    var hasRoute := p.HasRoute();
    var version := if hasRoute then 2 else p.version;
    var blob, compressed := EncodeBlob(z, version, p.payload);
    if blob.None? {
      return None;
    }
    var payload := blob.value;
    var flags := EncodeFlags(p, compressed);
    var timestamp := if p.timestamp != 0 then p.timestamp else now;
    if version >= 256 || p.packetType >= 256 || p.ttl >= 256 || timestamp >= Pow256(8)
       || |payload| >= Pow256(if version >= 2 then 4 else 2) {
      return None;
    }
    var body := EncodeBody(p, now, flags, payload);
    if pad {
      body := PadLoop(body);
    }
    r := Some(body);
  }

  // ----- Decoding -----

  datatype Head = Head(version: byte, packetType: byte, ttl: byte, timestamp: nat, flags: byte, payloadLen: nat)

  /** A decoded packet and the bytes after it. */
  datatype Parsed = Parsed(packet: Packet, rest: bytes)

  function ParseHead(d: bytes): Option<(Head, bytes)> {
    if |d| < HEADER_V1_SIZE + PEER_ID_SIZE || (d[0] != 1 && d[0] != 2) then None
    else if |d| < HeaderSize(d[0]) + PEER_ID_SIZE then None
    else
      var size := HeaderSize(d[0]);
      var payloadLen := FromBigEndian(d[12..size]);
      if payloadLen > MAX_PAYLOAD_LENGTH then None
      else Some((Head(d[0], d[1], d[2], FromBigEndian(d[3..11]), d[11], payloadLen), d[size..]))
  }

  /** Cuts `n` bytes when `present`, and nothing otherwise. */
  function CutIf(present: bool, d: bytes, n: nat): Option<(Option<bytes>, bytes)> {
    if !present then Some((None, d))
    else
      var (field, rest) :- Cut(d, n);
      Some((Some(field), rest))
  }

  function CutHops(d: bytes, count: nat): Option<(seq<bytes>, bytes)> {
    if count == 0 then Some(([], d))
    else
      var (hop, rest) :- Cut(d, PEER_ID_SIZE);
      var (hops, after) :- CutHops(rest, count - 1);
      Some(([hop] + hops, after))
  }

  function CutRoute(h: Head, d: bytes): Option<(Option<seq<bytes>>, bytes)> {
    if !(HasBit(h.flags, HAS_ROUTE) && h.version >= 2) then Some((None, d))
    else if d == [] then None
    else
      var (hops, rest) :- CutHops(d[1..], d[0]);
      Some((Some(hops), rest))
  }

  /** The payload behind a wire blob, with the compression-bomb check. */
  function Inflate(z: Zlib, h: Head, blob: bytes): Option<bytes> {
    if !HasBit(h.flags, IS_COMPRESSED) then Some(blob)
    else
      var (size, packed) :- Cut(blob, LengthWidth(h.version));
      var payload :- TryDecompress(z, packed);
      if |packed| > 0 && |payload| > MAX_COMPRESSION_RATIO * |packed| then None else Some(payload)
  }

  /** A flagged signature that is cut short is dropped, not rejected. */
  function CutSignature(h: Head, d: bytes): (Option<bytes>, bytes) {
    if HasBit(h.flags, HAS_SIGNATURE) && |d| >= SIGNATURE_SIZE
    then (Some(d[..SIGNATURE_SIZE]), d[SIGNATURE_SIZE..])
    else (None, d)
  }

  function ParseBody(z: Zlib, h: Head, d: bytes): Option<Parsed> {
    var (sender, d1) :- Cut(d, PEER_ID_SIZE);
    var (recipient, d2) :- CutIf(HasBit(h.flags, HAS_RECIPIENT), d1, PEER_ID_SIZE);
    var (route, d3) :- CutRoute(h, d2);
    ParseTail(z, h, sender, recipient, route, d3)
  }

  function ParseTail(z: Zlib, h: Head, sender: bytes, recipient: Option<bytes>, route: Option<seq<bytes>>, d: bytes)
    : Option<Parsed>
  {
    var (blob, d1) :- Cut(d, h.payloadLen);
    var payload :- Inflate(z, h, blob);
    var (signature, d2) := CutSignature(h, d1);
    Some(Parsed(
           Packet(h.version, h.packetType, h.ttl, h.timestamp, h.flags, sender, recipient, payload, signature, route),
           d2))
  }

  function Parse(z: Zlib, d: bytes): Option<Parsed> {
    var (h, rest) :- ParseHead(d);
    ParseBody(z, h, rest)
  }

  function DecodeRaw(z: Zlib, d: bytes): Option<Packet> {
    var parsed :- Parse(z, d);
    Some(parsed.packet)
  }

  function Decode(z: Zlib, d: bytes): Option<Packet> {
    if DecodeRaw(z, d).Some? then DecodeRaw(z, d) else DecodeRaw(z, Unpad(d))
  }

  method DecodeHops(data: bytes, start: nat, count: nat) returns (r: Option<seq<bytes>>, offset: nat)
    requires start <= |data|
    ensures offset <= |data|
    ensures CutHops(data[start..], count) == if r.None? then None else Some((r.value, data[offset..]))
  {
    var hops: seq<bytes> := [];
    offset := start;
    assert CutHops(data[start..], count).Some? ==>
      [] + CutHops(data[start..], count).value.0 == CutHops(data[start..], count).value.0;
    for i := 0 to count
      invariant offset <= |data|
      invariant CutHops(data[start..], count) ==
                match CutHops(data[offset..], count - i)
                case None => None
                case Some(more) => Some((hops + more.0, more.1))
    {
      CutAt(data, offset, PEER_ID_SIZE);
      if offset + PEER_ID_SIZE > |data| {
        return None, offset;
      }
      var hop := data[offset..offset + PEER_ID_SIZE];
      ghost var later := CutHops(data[offset + PEER_ID_SIZE..], count - i - 1);
      assert later.Some? ==> hops + ([hop] + later.value.0) == hops + [hop] + later.value.0;
      hops := hops + [hop];
      offset := offset + PEER_ID_SIZE;
    }
    assert hops + [] == hops;
    r := Some(hops);
  }

  method InflateBlob(z: Zlib, h: Head, blob: bytes) returns (r: Option<bytes>)
    ensures r == Inflate(z, h, blob)
  {
    if !HasBit(h.flags, IS_COMPRESSED) {
      return Some(blob);
    }
    var width := if h.version >= 2 then 4 else 2;
    if |blob| < width {
      return None;
    }
    var packed := blob[width..];
    r := TryDecompress(z, packed);
    if r.Some? && |packed| > 0 && |r.value| > MAX_COMPRESSION_RATIO * |packed| {
      return None;
    }
  }

  method DecodeHead(data: bytes) returns (r: Option<Head>, offset: nat)
    ensures r.Some? ==> offset + PEER_ID_SIZE <= |data|
    ensures ParseHead(data) == if r.None? then None else Some((r.value, data[offset..]))
  {
    offset := HEADER_V1_SIZE;
    if |data| < HEADER_V1_SIZE + PEER_ID_SIZE {
      return None, offset;
    }
    var version := data[0];
    if version != 1 && version != 2 {
      return None, offset;
    }
    if version >= 2 {
      if |data| < HEADER_V2_SIZE + PEER_ID_SIZE {
        return None, offset;
      }
      offset := HEADER_V2_SIZE;
    }
    var payloadLen := FromBigEndian(data[12..offset]);
    if payloadLen > MAX_PAYLOAD_LENGTH {
      return None, offset;
    }
    r := Some(Head(version, data[1], data[2], FromBigEndian(data[3..11]), data[11], payloadLen));
  }

  method DecodeTail(z: Zlib, data: bytes, start: nat, h: Head,
                    sender: bytes, recipient: Option<bytes>, route: Option<seq<bytes>>)
    returns (r: Option<Packet>)
    requires start <= |data|
    ensures r == match ParseTail(z, h, sender, recipient, route, data[start..])
                 case None => None
                 case Some(parsed) => Some(parsed.packet)
  {
    CutAt(data, start, h.payloadLen);
    if start + h.payloadLen > |data| {
      return None;
    }
    var payload := InflateBlob(z, h, data[start..start + h.payloadLen]);
    if payload.None? {
      return None;
    }
    var offset := start + h.payloadLen;

    var signature: Option<bytes> := None;
    CutAt(data, offset, SIGNATURE_SIZE);
    if HasBit(h.flags, HAS_SIGNATURE) {
      if offset + SIGNATURE_SIZE <= |data| {
        signature := Some(data[offset..offset + SIGNATURE_SIZE]);
      }
    }
    assert signature == CutSignature(h, data[offset..]).0;
    r := Some(Packet(h.version, h.packetType, h.ttl, h.timestamp, h.flags,
                     sender, recipient, payload.value, signature, route));
  }

  /** _decode_raw: an offset walks over the data. */
  method DecodeAtOffsets(z: Zlib, data: bytes) returns (r: Option<Packet>)
    ensures r == DecodeRaw(z, data)
  {
    var head, offset := DecodeHead(data);
    if head.None? {
      return None;
    }
    var h := head.value;
    CutAt(data, offset, PEER_ID_SIZE);
    var sender := data[offset..offset + PEER_ID_SIZE];
    offset := offset + PEER_ID_SIZE;

    var recipient: Option<bytes> := None;
    CutAt(data, offset, PEER_ID_SIZE);
    if HasBit(h.flags, HAS_RECIPIENT) {
      if offset + PEER_ID_SIZE > |data| {
        return None;
      }
      recipient := Some(data[offset..offset + PEER_ID_SIZE]);
      offset := offset + PEER_ID_SIZE;
    }

    var route: Option<seq<bytes>> := None;
    ghost var d2 := data[offset..];
    if HasBit(h.flags, HAS_ROUTE) && h.version >= 2 {
      if offset + 1 > |data| {
        return None;
      }
      assert d2[0] == data[offset] && d2[1..] == data[offset + 1..];
      route, offset := DecodeHops(data, offset + 1, data[offset]);
      if route.None? {
        return None;
      }
    }
    assert CutRoute(h, d2) == Some((route, data[offset..]));

    r := DecodeTail(z, data, offset, h, sender, recipient, route);
  }
}
