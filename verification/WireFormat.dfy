/** The formats as an outside reader finds them: flag bits, tags, widths and digits in plain numbers. */
module WireFormat {
  import opened Bytes
  import opened Seqs
  import opened Packets
  import opened Padding
  import opened Codec

  // ----- Integers -----

  /** The digit of weight 256^k. */
  function Digit(n: nat, k: nat): byte {
    if k == 0 then n % 256 else Digit(n / 256, k - 1)
  }

  /** `n` in `width` bytes, the most significant first. */
  function Digits(n: nat, width: nat): bytes {
    seq(width, i requires 0 <= i < width => Digit(n, width - 1 - i))
  }

  lemma {:induction false} DigitsExactly(n: nat, width: nat)
    ensures BigEndian(n, width) == Digits(n, width)
  {
    if width > 0 {
      DigitsExactly(n / 256, width - 1);
      var d := Digits(n / 256, width - 1) + [n % 256];
      forall i | 0 <= i < width
        ensures Digits(n, width)[i] == d[i]
      {
        assert Digits(n, width)[i] == Digit(n, width - 1 - i);
      }
      assert Digits(n, width) == d;
    }
  }

  // ----- Packets -----

  /** The flags byte: 1 for a recipient, 2 for a signature, 4 for a compressed payload, 8 for a route. */
  function FlagsByte(p: Packet, compressed: bool): nat {
    (if p.recipient.Some? then 1 else 0) + (if p.signature.Some? then 2 else 0) + (if compressed then 4 else 0)
    + (if p.HasRoute() then 8 else 0)
  }

  /** A payload is compressed exactly when it is over 100 bytes and gets shorter. */
  predicate IsCompressed(z: Zlib, payload: bytes) {
    |payload| > 100 && |z.compress(payload)| < |payload|
  }

  /** An id in eight bytes, cut or filled with zeros. */
  function Eight(id: bytes): bytes {
    if |id| >= 8 then id[..8] else id + Repeat(0, 8 - |id|)
  }

  /** The count and the first 255 hops. */
  function RouteField(route: seq<bytes>): bytes {
    var n := if |route| < 255 then |route| else 255;
    [n] + Join(seq(n, i requires 0 <= i < n => Eight(route[i])))
  }

  /** The payload, or its size in two bytes, four from version 2 on, and the compressed payload. */
  function PayloadField(z: Zlib, version: nat, payload: bytes): bytes {
    if IsCompressed(z, payload) then Digits(|payload|, if version >= 2 then 4 else 2) + z.compress(payload)
    else payload
  }

  function RecipientField(p: Packet): bytes {
    if p.recipient.Some? then Eight(p.recipient.value) else []
  }

  function SignatureField(p: Packet): bytes {
    match p.signature
    case None => []
    case Some(s) => if |s| > 64 then s[..64] else s
  }

  function HopsField(p: Packet): bytes {
    if p.HasRoute() then RouteField(p.route.value) else []
  }

  /** Version 2 is for routed packets. */
  function VersionByte(p: Packet): nat {
    if p.HasRoute() then 2 else p.version
  }

  /** The width of the length fields. */
  function Width(version: nat): nat {
    if version >= 2 then 4 else 2
  }

  function HeadField(version: byte, packetType: byte, ttl: byte, ts: nat, flags: byte, length: nat): bytes {
    [version, packetType, ttl] + Digits(ts, 8) + [flags] + Digits(length, Width(version))
  }

  /** A packet field by field: version, type, TTL, eight bytes of timestamp, flags, the payload's length in two bytes or
      four, sender, recipient, route, payload, and at most 64 bytes of signature. */
  function Spelled(p: Packet, ts: nat, flags: byte, payload: bytes): bytes
    requires VersionByte(p) < 256 && p.packetType < 256 && p.ttl < 256
  {
    HeadField(VersionByte(p), p.packetType, p.ttl, ts, flags, |payload|)
    + Eight(p.sender) + RecipientField(p) + HopsField(p) + payload + SignatureField(p)
  }

  /** The timestamp, or the clock if it is not set. */
  function Stamp(p: Packet, now: nat): nat {
    if p.timestamp != 0 then p.timestamp else now
  }

  /** An encoded packet is its fields; an unset timestamp is filled in. */
  lemma PacketBytes(z: Zlib, p: Packet, now: nat)
    requires Raw(z, p, now).Some?
    ensures VersionByte(p) < 256 && p.packetType < 256 && p.ttl < 256
    ensures Raw(z, p, now).value
         == Spelled(p, Stamp(p, now), FlagsByte(p, IsCompressed(z, p.payload)),
                    PayloadField(z, VersionByte(p), p.payload))
  {
    var flags := FlagsByte(p, IsCompressed(z, p.payload));
    var payload := PayloadField(z, VersionByte(p), p.payload);
    RawIsLayout(z, p, now);
    LayoutExactly(p, now, flags, payload);
  }

  lemma RawIsLayout(z: Zlib, p: Packet, now: nat)
    requires Raw(z, p, now).Some?
    ensures
      var flags := FlagsByte(p, IsCompressed(z, p.payload));
      var payload := PayloadField(z, VersionByte(p), p.payload);
      FieldsFit(p, now, |payload|) && Raw(z, p, now).value == Layout(p, now, flags, payload)
  {
    BlobExactly(z, WireVersion(p), p.payload);
    SameLayout(p, now, Flags(p, Compresses(z, p.payload)), Blob(z, WireVersion(p), p.payload).value,
               FlagsByte(p, IsCompressed(z, p.payload)), PayloadField(z, VersionByte(p), p.payload));
  }

  lemma SameLayout(p: Packet, now: nat, flags: byte, blob: bytes, f: nat, payload: bytes)
    requires FieldsFit(p, now, |blob|) && f == flags && payload == blob
    ensures FieldsFit(p, now, |payload|) && Layout(p, now, flags, blob) == Layout(p, now, f, payload)
  {
  }

  lemma LayoutExactly(p: Packet, now: nat, flags: byte, blob: bytes)
    requires FieldsFit(p, now, |blob|)
    ensures Layout(p, now, flags, blob) == Spelled(p, Stamp(p, now), flags, blob)
  {
    FieldsExactly(p);
    HeaderExactly(WireVersion(p), p.packetType, p.ttl, Timestamp(p, now), flags, |blob|);
  }

  lemma BlobExactly(z: Zlib, version: nat, payload: bytes)
    requires Blob(z, version, payload).Some?
    ensures Blob(z, version, payload).value == PayloadField(z, version, payload)
  {
    DigitsExactly(|payload|, LengthWidth(version));
  }

  lemma HeaderExactly(version: byte, packetType: byte, ttl: byte, ts: nat, flags: byte, length: nat)
    ensures Header(version, packetType, ttl, ts, flags, length)
         == HeadField(version, packetType, ttl, ts, flags, length)
  {
    DigitsExactly(ts, 8);
    DigitsExactly(length, LengthWidth(version));
  }

  lemma EightExactly(id: bytes)
    ensures PadPeerId(id) == Eight(id)
  {
  }

  lemma FieldsExactly(p: Packet)
    ensures PadPeerId(p.sender) == Eight(p.sender) && RecipientBytes(p) == RecipientField(p)
    ensures RouteBytes(p) == HopsField(p)
    ensures SignatureBytes(p) == SignatureField(p)
  {
    EightExactly(p.sender);
    if p.recipient.Some? {
      EightExactly(p.recipient.value);
    }
    if p.HasRoute() {
      RouteExactly(p.route.value);
    }
  }

  lemma RouteExactly(route: seq<bytes>)
    ensures var hops := WireHops(route); RouteField(route) == [|hops|] + Join(hops)
  {
    var n := if |route| < 255 then |route| else 255;
    var hops := seq(n, i requires 0 <= i < n => Eight(route[i]));
    assert |hops| == |WireHops(route)|;
    forall i | 0 <= i < n
      ensures WireHops(route)[i] == hops[i]
    {
      EightExactly(route[i]);
    }
    assert WireHops(route) == hops;
  }

  /** Encoding fails exactly when a field does not fit: type or TTL over 255, a timestamp over eight bytes, a payload
      over 65,535 bytes, compressed or not, in version 0 or 1, over four bytes in a later one, or a version over 255. */
  lemma EncodesExactly(z: Zlib, p: Packet, now: nat)
    ensures
      var version := if p.HasRoute() then 2 else p.version;
      var limit := if version >= 2 then 0x1_0000_0000 else 0x1_0000;
      Raw(z, p, now).Some?
      <==> && version < 256 && p.packetType < 256 && p.ttl < 256
           && (if p.timestamp != 0 then p.timestamp else now) < 0x1_0000_0000_0000_0000
           && |PayloadField(z, version, p.payload)| < limit
           && (IsCompressed(z, p.payload) ==> |p.payload| < limit)
  {
    FieldSizes();
    DigitsExactly(|p.payload|, LengthWidth(WireVersion(p)));
  }

  /** Padding is the byte that counts it, that many times, up to the next of 256, 512, 1024 and 2048 bytes. */
  lemma PaddingBytes(data: bytes)
    ensures data <= Pad(data)
    ensures forall i :: |data| <= i < |Pad(data)| ==> Pad(data)[i] == |Pad(data)| - |data|
    ensures PadsSize(|data|) <==> |Pad(data)| > |data|
  {
    BlockForBounds(|data|, PADDING_BLOCK_SIZES);
    PadAddsBytes(data);
  }

  /** A message of two bytes, byte by byte. */
  const SAMPLE := Packet(1, 0x02, 7, 258, 0, [1, 2, 3, 4, 5, 6, 7, 8], Some([9]), [104, 105], None, None)

  lemma PacketVector(z: Zlib, now: nat)
    ensures Raw(z, SAMPLE, now).Some?
    ensures Raw(z, SAMPLE, now).value == SAMPLE_HEAD + [1, 2, 3, 4, 5, 6, 7, 8] + [9, 0, 0, 0, 0, 0, 0, 0] + [104, 105]
  {
    EncodesExactly(z, SAMPLE, now);
    PacketBytes(z, SAMPLE, now);
    SampleFields(z);
    AppendNothing(SAMPLE_HEAD + [1, 2, 3, 4, 5, 6, 7, 8] + [9, 0, 0, 0, 0, 0, 0, 0]);
    AppendNothing(SAMPLE_HEAD + [1, 2, 3, 4, 5, 6, 7, 8] + [9, 0, 0, 0, 0, 0, 0, 0] + [104, 105]);
  }

  const SAMPLE_HEAD: bytes := [1, 2, 7, 0, 0, 0, 0, 0, 0, 1, 2, 1, 0, 2]

  lemma SampleFields(z: Zlib)
    ensures HeadField(1, 2, 7, 258, 1, 2) == SAMPLE_HEAD
    ensures Eight(SAMPLE.sender) == [1, 2, 3, 4, 5, 6, 7, 8] && RecipientField(SAMPLE) == [9, 0, 0, 0, 0, 0, 0, 0]
    ensures HopsField(SAMPLE) == [] && SignatureField(SAMPLE) == []
    ensures PayloadField(z, 1, SAMPLE.payload) == [104, 105]
    ensures FlagsByte(SAMPLE, IsCompressed(z, SAMPLE.payload)) == 1
  {
    SampleDigits();
  }

  lemma SampleDigits()
    ensures Digits(2, 2) == [0, 2] && Digits(258, 8) == [0, 0, 0, 0, 0, 0, 1, 2]
  {
    assert Digit(258, 0) == 2 && Digit(258, 1) == Digit(1, 0) == 1;
    ZeroDigits(258, 2, 7);
    ZeroDigits(2, 1, 1);
    assert forall i :: 0 <= i < 6 ==> Digits(258, 8)[i] == Digit(258, 7 - i);
  }

  lemma {:induction false} ZeroDigits(n: nat, low: nat, high: nat)
    requires n < Pow256(low)
    ensures forall k :: low <= k <= high ==> Digit(n, k) == 0
    decreases low
  {
    forall k | low <= k <= high
      ensures Digit(n, k) == 0
    {
      if low == 0 {
        ZeroDigit(k);
      } else {
        ZeroDigits(n / 256, low - 1, k - 1);
      }
    }
  }

  lemma {:induction false} ZeroDigit(k: nat)
    ensures Digit(0, k) == 0
  {
    if k > 0 {
      ZeroDigit(k - 1);
    }
  }
}
