/** Relaying over several hops: decode, lower the TTL, encode again. */
module SignedRelay {
  import opened Bytes
  import opened Packets
  import opened Codec
  import opened CodecTheorems
  import opened Wire

  /** One relay: the packet in `wire` with its TTL lowered, as the relaying node sends it at `clock`. */
  function Hop(w: Wire, wire: bytes, clock: nat): Option<bytes> {
    var p :- w.decode(wire);
    if p.ttl == 0 then None else w.Encode(p.WithTtl(p.ttl - 1), clock)
  }

  /** The bytes after one relay per entry of `clocks`. */
  function Travel(w: Wire, wire: bytes, clocks: seq<nat>): Option<bytes> {
    if clocks == [] then Some(wire)
    else
      var before :- Travel(w, wire, clocks[..|clocks| - 1]);
      Hop(w, before, clocks[|clocks| - 1])
  }

  /** The bytes an origin signs and a receiver checks: TTL 0, no signature. */
  function SignedBytes(w: Wire, p: Packet, now: nat): Option<bytes> {
    w.Encode(p.(ttl := 0, signature := None), now)
  }

  /** A packet an origin can send: sendable, with a timestamp that no relay has to fill in. */
  predicate Originates(w: Wire, z: Zlib, p: Packet, now: nat) {
    Sendable(w, z, p, now) && Timestamp(p, now) != 0
  }

  ghost predicate RelayLaws(w: Wire, z: Zlib) {
    RoundTrips(w, z) && EncodesFields(w, z) && AllowsLowerTtl(w)
  }

  lemma LowerTtlOriginates(w: Wire, z: Zlib, p: Packet, now: nat, ttl: nat)
    requires RelayLaws(w, z) && Originates(w, z, p, now) && ttl <= p.ttl
    ensures Originates(w, z, p.WithTtl(ttl), now)
    ensures AsReceived(z, p.WithTtl(ttl), now) == AsReceived(z, p, now).(ttl := ttl)
  {
  }

  /** One hop turns the encoding of `p` into the encoding of `p` with its TTL one lower. */
  lemma HopLowersTtl(w: Wire, z: Zlib, p: Packet, now: nat, clock: nat)
    requires RelayLaws(w, z) && Originates(w, z, p, now)
    ensures Hop(w, w.Encode(p, now).value, clock)
         == if p.ttl == 0 then None else w.Encode(p.WithTtl(p.ttl - 1), now)
  {
    if p.ttl > 0 {
      ReceivedFields(z, p, now, p.ttl - 1, clock);
    }
  }

  lemma HopAtStage(w: Wire, z: Zlib, p: Packet, now: nat, n: nat, clock: nat)
    requires RelayLaws(w, z) && Originates(w, z, p, now) && n <= p.ttl
    ensures w.Encode(p.WithTtl(p.ttl - n), now).Some?
    ensures Hop(w, w.Encode(p.WithTtl(p.ttl - n), now).value, clock)
         == if n == p.ttl then None else w.Encode(p.WithTtl(p.ttl - n - 1), now)
  {
    LowerTtlOriginates(w, z, p, now, p.ttl - n);
    HopLowersTtl(w, z, p.WithTtl(p.ttl - n), now, clock);
  }

  /** The origin's packet with its TTL lowered by n; a packet never outlives its TTL. */
  function Stage(w: Wire, p: Packet, now: nat, n: nat): Option<bytes> {
    if n <= p.ttl then w.Encode(p.WithTtl(p.ttl - n), now) else None
  }

  lemma StageNext(w: Wire, z: Zlib, p: Packet, now: nat, n: nat, clock: nat)
    requires RelayLaws(w, z) && Originates(w, z, p, now)
    ensures Stage(w, p, now, n + 1)
         == if Stage(w, p, now, n).None? then None else Hop(w, Stage(w, p, now, n).value, clock)
  {
    if n <= p.ttl {
      HopAtStage(w, z, p, now, n, clock);
    }
  }

  /** After n relays, whenever they happen, the bytes are the origin's packet at stage n. */
  lemma {:induction false} TravelLowersTtl(w: Wire, z: Zlib, p: Packet, now: nat, clocks: seq<nat>)
    requires RelayLaws(w, z) && Originates(w, z, p, now)
    ensures w.Encode(p, now).Some?
    ensures Travel(w, w.Encode(p, now).value, clocks) == Stage(w, p, now, |clocks|)
  {
    if clocks == [] {
      assert p.WithTtl(p.ttl) == p;
    } else {
      var n := |clocks| - 1;
      TravelLowersTtl(w, z, p, now, clocks[..n]);
      StageNext(w, z, p, now, n, clocks[n]);
    }
  }

  /** Whatever the relays' clocks say, a receiver n hops away finds every field but the TTL as sent,
      the TTL lowered by exactly n, and the very bytes the origin signed. */
  lemma {:induction false} SignedBytesSurviveRelays(w: Wire, z: Zlib, p: Packet, now: nat, clocks: seq<nat>, clock: nat)
    requires RelayLaws(w, z) && Originates(w, z, p, now)
    requires |clocks| <= p.ttl
    ensures Travel(w, w.Encode(p, now).value, clocks).Some?
    ensures
      var received := w.decode(Travel(w, w.Encode(p, now).value, clocks).value);
      && received == Some(AsReceived(z, p, now).(ttl := p.ttl - |clocks|))
      && SignedBytes(w, received.value, clock) == SignedBytes(w, p, now)
  {
    var ttl := p.ttl - |clocks|;
    TravelLowersTtl(w, z, p, now, clocks);
    LowerTtlOriginates(w, z, p, now, ttl);
    ReceivedFields(z, p, now, 0, clock);
    assert AsReceived(z, p, now).(ttl := ttl).(ttl := 0, signature := None)
        == AsReceived(z, p, now).(ttl := 0, signature := None);
  }
}
