/** Inbound reassembly as functions on values: what each step of mesh/fragment_manager.py does to its memory. */
module Reassembly {
  import opened Bytes
  import opened Fragmentation
  import opened Sums

  const MAX_ACTIVE_FRAGMENT_SETS := 64
  const MAX_GLOBAL_FRAGMENT_BYTES := 4 * 1_048_576
  const RESCUE_TTL_MS := 3_600_000.0
  const RESCUE_MIN_FRACTION := 0.75
  const RESCUE_MAX_ENTRIES := 20
  const RESCUE_MAX_BYTES := 4 * 1024 * 1024

  type Pieces = map<nat, bytes>

  datatype FragmentSet = FragmentSet(
    originalType: nat,
    total: nat,
    timestampMs: real,
    lastFragmentMs: real,
    sender: bytes,
    attempt: nat,
    fragments: Pieces,
    cumulativeBytes: int)
  {
    function Key(): RescueKey {
      RescueKey(sender, total, originalType)
    }
  }

  /** Attempts to send the same thing again share this key. */
  datatype RescueKey = RescueKey(sender: bytes, total: nat, originalType: nat)

  datatype Memory = Memory(
    sets: map<bytes, FragmentSet>,
    globalBytes: int,
    rescue: map<RescueKey, Pieces>,
    rescueTs: map<RescueKey, real>,
    attempts: map<RescueKey, nat>)

  const EMPTY: Memory := Memory(map[], 0, map[], map[], map[])

  /** What handling one fragment comes to: nothing yet, a complete byte string, or a KeyError in the final join. */
  datatype Outcome = Waiting | Completed(joined: bytes) | Broken

  function Length(b: bytes): int {
    |b|
  }

  function Cumulative(s: FragmentSet): int {
    s.cumulativeBytes
  }

  ghost function PieceBytes(pieces: Pieces): int {
    Sum(pieces, Length)
  }

  ghost function SetBytes(sets: map<bytes, FragmentSet>): int {
    Sum(sets, Cumulative)
  }

  ghost function RescueBytes(rescue: map<RescueKey, Pieces>): int {
    Sum(rescue, PieceBytes)
  }

  /** Are all indices 0..total-1 present? */
  predicate Complete(pieces: Pieces, total: nat) {
    forall i :: 0 <= i < total ==> i in pieces
  }

  /** The pieces in index order, concatenated. */
  function JoinPieces(pieces: Pieces, total: nat): bytes
    requires Complete(pieces, total)
  {
    Join(seq(total, i requires 0 <= i < total => pieces[i]))
  }

  // ----- Handling one fragment -----

  function RemoveSet(m: Memory, fragId: bytes): Memory {
    if fragId in m.sets
    then m.(sets := m.sets - {fragId}, globalBytes := m.globalBytes - m.sets[fragId].cumulativeBytes)
    else m
  }

  /** The rescued pieces a new attempt starts from. */
  function Inherited(m: Memory, key: RescueKey, now: real): Pieces {
    if key in m.rescue && now - (if key in m.rescueTs then m.rescueTs[key] else 0.0) < RESCUE_TTL_MS
    then m.rescue[key]
    else map[]
  }

  /** A new fragment set, numbered as the next attempt and seeded from the rescue cache. */
  ghost function OpenSet(m: Memory, fragId: bytes, key: RescueKey, now: real): Memory {
    var inherited := Inherited(m, key, now);
    var attempt := (if key in m.attempts then m.attempts[key] else 0) + 1;
    var s := FragmentSet(key.originalType, key.total, now, now, key.sender, attempt, inherited, PieceBytes(inherited));
    m.(sets := m.sets[fragId := s],
       globalBytes := m.globalBytes + s.cumulativeBytes,
       attempts := m.attempts[key := attempt])
  }

  predicate HasKey(s: FragmentSet, key: RescueKey) {
    s.Key() == key
  }

  /** A finished transfer takes its set, every other set of the same key and the rescue entry with it. */
  ghost function Finish(m: Memory, key: RescueKey): Memory {
    var rest := map k | k in m.sets && !HasKey(m.sets[k], key) :: m.sets[k];
    m.(sets := rest, globalBytes := SetBytes(rest), rescue := m.rescue - {key},
       rescueTs := if key in m.rescue then m.rescueTs - {key} else m.rescueTs)
  }

  function OldSize(s: FragmentSet, index: nat): nat {
    if index in s.fragments then |s.fragments[index]| else 0
  }

  /** The set after one more piece. */
  function WithPiece(s: FragmentSet, index: nat, data: bytes, now: real): FragmentSet {
    s.(fragments := s.fragments[index := data],
       cumulativeBytes := s.cumulativeBytes - OldSize(s, index) + |data|,
       lastFragmentMs := now)
  }

  function StorePiece(m: Memory, x: Piece, now: real): Memory
    requires x.fragId in m.sets
  {
    var s := m.sets[x.fragId];
    m.(sets := m.sets[x.fragId := WithPiece(s, x.index, x.data, now)],
       globalBytes := m.globalBytes - OldSize(s, x.index) + |x.data|)
  }

  /** Does the piece fit the per-set and the global byte cap? */
  predicate Fits(m: Memory, x: Piece)
    requires x.fragId in m.sets
  {
    var s := m.sets[x.fragId];
    && s.cumulativeBytes - OldSize(s, x.index) + |x.data| <= MAX_FRAGMENT_TOTAL_BYTES
    && m.globalBytes + |x.data| - OldSize(s, x.index) <= MAX_GLOBAL_FRAGMENT_BYTES
  }

  /** Storing a piece into an open set. A piece over either cap costs the whole set: the test that was meant to
      spare a set compares a fragment id with the set's integer indices and so never finds it. */
  ghost function AddPiece(m: Memory, x: Piece, now: real): (Memory, Outcome)
    requires x.fragId in m.sets
  {
    if !Fits(m, x) then (RemoveSet(m, x.fragId), Waiting)
    else
      var stored := StorePiece(m, x, now);
      var s := stored.sets[x.fragId];
      if |s.fragments| != x.total then (stored, Waiting)
      else if !Complete(s.fragments, x.total) then (stored, Broken)
      else (Finish(stored, s.Key()), Completed(JoinPieces(s.fragments, x.total)))
  }

  /** A decoded piece from `sender`, for a known or a new set. */
  ghost function HandlePiece(m: Memory, sender: bytes, x: Piece, created: real, touched: real): (Memory, Outcome) {
    if x.fragId in m.sets then
      var s := m.sets[x.fragId];
      if s.total != x.total || s.originalType != x.originalType then (RemoveSet(m, x.fragId), Waiting)
      else AddPiece(m, x, touched)
    else if |m.sets| >= MAX_ACTIVE_FRAGMENT_SETS then (m, Waiting)
    else AddPiece(OpenSet(m, x.fragId, RescueKey(sender, x.total, x.originalType), created), x, touched)
  }

  /** handle_fragment: `created` and `touched` are the clock readings for a new set and for the stored piece. */
  ghost function Handle(m: Memory, sender: bytes, payload: bytes, created: real, touched: real): (Memory, Outcome) {
    var decoded := DecodePiece(payload);
    if decoded.None? || decoded.value.total > MAX_FRAGMENTS_PER_ID || decoded.value.data == [] then (m, Waiting)
    else HandlePiece(m, sender, decoded.value, created, touched)
  }

  // ----- Cleanup -----

  /** Rescue entries past their lifetime go, with their attempt counters. */
  function DropStale(m: Memory, now: real): Memory {
    var stale := set k | k in m.rescueTs && now - m.rescueTs[k] > RESCUE_TTL_MS;
    m.(rescue := m.rescue - stale, rescueTs := m.rescueTs - stale, attempts := m.attempts - stale)
  }

  /** Thirty fragments a second with a factor 1.5, and at least thirty seconds. */
  function InactivityLimitMs(s: FragmentSet): real {
    var seconds := s.total as real / 30.0 * 1.5;
    (if seconds > 30.0 then seconds else 30.0) * 1000.0
  }

  predicate Expired(s: FragmentSet, now: real) {
    now - s.lastFragmentMs > InactivityLimitMs(s)
  }

  /** Enough of it arrived, from a known sender, to be worth keeping. */
  predicate WorthRescuing(s: FragmentSet) {
    |s.sender| > 0 && |s.fragments| as real >= s.total as real * RESCUE_MIN_FRACTION
  }

  /** One expired set leaves, its pieces merged over the rescue entry of its key if it is worth rescuing. */
  function ExpireSet(m: Memory, fragId: bytes, now: real): Memory
    requires fragId in m.sets
  {
    var s := m.sets[fragId];
    var kept :=
      if WorthRescuing(s) then
        var existing := if s.Key() in m.rescue then m.rescue[s.Key()] else map[];
        m.(rescue := m.rescue[s.Key() := existing + s.fragments], rescueTs := m.rescueTs[s.Key() := now])
      else m;
    RemoveSet(kept, fragId)
  }

  lemma {:induction false} ExpireNext(m: Memory, order: seq<bytes>, i: nat, now: real)
    requires i < |order|
    ensures
      var before := ExpireSets(m, order[..i], now);
      ExpireSets(m, order[..i + 1], now)
      == if order[i] in before.sets && Expired(before.sets[order[i]], now) then ExpireSet(before, order[i], now)
         else before
  {
    assert order[..i + 1][..i] == order[..i];
  }

  /** The expired sets among `order`, the dictionary's iteration order, leave one after the other. */
  function ExpireSets(m: Memory, order: seq<bytes>, now: real): Memory
    decreases |order|
  {
    if order == [] then m
    else
      var before := ExpireSets(m, order[..|order| - 1], now);
      var fragId := order[|order| - 1];
      if fragId in before.sets && Expired(before.sets[fragId], now) then ExpireSet(before, fragId, now) else before
  }

  ghost predicate Oversized(rescue: map<RescueKey, Pieces>) {
    |rescue| > RESCUE_MAX_ENTRIES || RescueBytes(rescue) > RESCUE_MAX_BYTES
  }

  /** What evicting from the rescue cache may do: the oldest entries go, as few as the limits allow. */
  ghost predicate Evicted(m: Memory, after: Memory) {
    && after.sets == m.sets && after.globalBytes == m.globalBytes
    && after.rescue.Keys <= m.rescue.Keys
    && after.rescue == (map k | k in after.rescue.Keys && k in m.rescue :: m.rescue[k])
    && after.rescueTs == (map k | k in after.rescue.Keys && k in m.rescueTs :: m.rescueTs[k])
    && after.attempts == m.attempts - (m.rescue.Keys - after.rescue.Keys)
    && !Oversized(after.rescue)
    // every survivor is at least as new as every evicted entry
    && (forall k, e ::
          k in after.rescue && e in m.rescue && e !in after.rescue && k in m.rescueTs && e in m.rescueTs ==>
          m.rescueTs[e] <= m.rescueTs[k])
    // keeping the last evicted entry, one of the newest of them, would have broken a limit
    && (after.rescue != m.rescue ==> exists e :: LastEvicted(m, after, e))
  }

  ghost predicate LastEvicted(m: Memory, after: Memory, e: RescueKey) {
    && e in m.rescue && e !in after.rescue && e in m.rescueTs
    && Oversized(after.rescue[e := m.rescue[e]])
    && (forall k :: k in m.rescue && k !in after.rescue && k in m.rescueTs ==> m.rescueTs[k] <= m.rescueTs[e])
  }

  /** What a sweep may do; the rescue cache is only trimmed when it is kept on disk and may have changed. */
  ghost predicate Swept(m: Memory, after: Memory, order: seq<bytes>, now: real, persistent: bool) {
    var expired := ExpireSets(DropStale(m, now), order, now);
    if persistent && (DropStale(m, now) != m || expired != DropStale(m, now))
    then Evicted(expired, after)
    else after == expired
  }

  // ----- The invariant -----

  ghost predicate Counted(s: FragmentSet) {
    s.cumulativeBytes == PieceBytes(s.fragments)
  }

  /** Every byte counter is exact, every cap holds, and the two rescue maps have the same keys. */
  ghost predicate Consistent(m: Memory) {
    && (forall k :: k in m.sets ==> Counted(m.sets[k]) && m.sets[k].cumulativeBytes <= MAX_FRAGMENT_TOTAL_BYTES)
    && m.globalBytes == SetBytes(m.sets)
    && m.globalBytes <= MAX_GLOBAL_FRAGMENT_BYTES
    && |m.sets| <= MAX_ACTIVE_FRAGMENT_SETS
    && m.rescue.Keys == m.rescueTs.Keys
  }
}
