/** The packet record and the protocol constants (protocol/packet.py, protocol/constants.py). */
module Packets {
  import opened Bytes

  const ANNOUNCE := 0x01
  const MESSAGE := 0x02
  const LEAVE := 0x03
  const NOISE_HANDSHAKE := 0x10
  const NOISE_ENCRYPTED := 0x11
  const FRAGMENT := 0x20
  const REQUEST_SYNC := 0x21

  const HAS_RECIPIENT := 0x01
  const HAS_SIGNATURE := 0x02
  const IS_COMPRESSED := 0x04
  const HAS_ROUTE := 0x08

  const PEER_ID_SIZE := 8
  const SIGNATURE_SIZE := 64
  const HEADER_V1_SIZE := 14
  const HEADER_V2_SIZE := 16

  const COMPRESSION_THRESHOLD_BYTES := 100
  const MAX_PAYLOAD_LENGTH := 10_485_760
  const MAX_COMPRESSION_RATIO := 50_000

  /** Integer fields are unsigned; a value too large for its wire field makes encoding fail. */
  datatype Packet = Packet(
    version: nat,
    packetType: nat,
    ttl: nat,
    timestamp: nat,
    flags: nat,
    sender: bytes,
    recipient: Option<bytes>,
    payload: bytes,
    signature: Option<bytes>,
    route: Option<seq<bytes>>)
  {
    predicate HasRoute() {
      route.Some? && route.value != []
    }

    /** A copy with another TTL. */
    function WithTtl(ttl: nat): Packet {
      this.(ttl := ttl)
    }

    predicate IsBroadcast() {
      recipient.None? || recipient.value == Repeat(0xFF, PEER_ID_SIZE)
    }
  }
}
