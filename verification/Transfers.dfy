/** One transfer from start to end, among any others: fragments in any order with any repeats, with or without rescued
    pieces. */
module Transfers {
  import opened Bytes
  import opened Fragmentation
  import opened Sums
  import opened Reassembly
  import opened Conservation
  import opened Attempts
  import opened Survival

  /** What is sent: the chunks of one string under one fragment id. */
  datatype Transfer = Transfer(fragId: bytes, sender: bytes, originalType: nat, list: seq<bytes>)
  {
    function Total(): nat {
      |list|
    }

    function Key(): RescueKey {
      RescueKey(sender, |list|, originalType)
    }

    function PieceAt(i: nat): Piece
      requires i < |list|
    {
      Piece(fragId, i, |list|, originalType, list[i])
    }

    /** The format can carry it and the receiver accepts its pieces. */
    predicate Carriable() {
      && |fragId| == FRAGMENT_ID_SIZE && originalType < 256 && 1 <= |list| <= MAX_FRAGMENTS_PER_ID
      && forall i :: 0 <= i < |list| ==> list[i] != []
    }
  }

  /** Inherited pieces overlaid with the chunks received so far. */
  function Overlay(inherited: Pieces, list: seq<bytes>, order: seq<nat>): Pieces
    requires forall j :: 0 <= j < |order| ==> order[j] < |list|
  {
    if order == [] then inherited
    else
      var last := order[|order| - 1];
      Overlay(inherited, list, order[..|order| - 1])[last := list[last]]
  }

  lemma {:induction false} OverlayAt(inherited: Pieces, list: seq<bytes>, order: seq<nat>, i: nat)
    requires forall j :: 0 <= j < |order| ==> order[j] < |list|
    ensures i in Overlay(inherited, list, order) <==> i in inherited || i in order
    ensures i in order ==> Overlay(inherited, list, order)[i] == list[i]
    ensures i in inherited && i !in order ==> Overlay(inherited, list, order)[i] == inherited[i]
  {
    if order != [] {
      var n := |order| - 1;
      OverlayAt(inherited, list, order[..n], i);
      assert order == order[..n] + [order[n]];
    }
  }

  /** Do the inherited and the received indices cover 0..total-1? */
  ghost predicate Covered(inherited: Pieces, order: seq<nat>, total: nat) {
    forall i: nat :: i < total ==> i in inherited || i in order
  }

  /** Every piece that may end up in the set is at most `bound` bytes, and that many fit the cap of a set. */
  ghost predicate Sized(t: Transfer, inherited: Pieces, bound: nat) {
    && (forall i :: i in inherited ==> i < t.Total() && |inherited[i]| <= bound)
    && (forall i :: 0 <= i < t.Total() ==> |t.list[i]| <= bound)
    && t.Total() * bound <= MAX_FRAGMENT_TOTAL_BYTES
  }

  /** Beside whatever else is being received, the whole transfer fits the global cap. */
  predicate RoomBeside(m: Memory, t: Transfer, bound: nat) {
    var own := if t.fragId in m.sets then m.sets[t.fragId].cumulativeBytes else 0;
    m.globalBytes - own + t.Total() * bound <= MAX_GLOBAL_FRAGMENT_BYTES
  }

  ghost predicate Bounded(pieces: Pieces, total: nat, bound: nat) {
    forall i :: i in pieces ==> i < total && |pieces[i]| <= bound
  }

  lemma BoundedBytes(pieces: Pieces, total: nat, bound: nat)
    requires Bounded(pieces, total, bound)
    ensures 0 <= PieceBytes(pieces) <= total * bound
  {
    PieceBytesNonNegative(pieces);
    SumBounded(pieces, Length, bound);
    CompleteCounted(pieces, total);
    MulMonotone(|pieces|, total, bound);
  }

  /** Among its sets the manager has one with exactly `pieces` of the transfer, the last of which came at `last`. */
  ghost predicate Holds(m: Memory, t: Transfer, pieces: Pieces, last: real) {
    && t.fragId in m.sets && m.sets[t.fragId].Key() == t.Key()
    && m.sets[t.fragId].fragments == pieces && m.sets[t.fragId].cumulativeBytes == PieceBytes(pieces)
    && m.sets[t.fragId].lastFragmentMs == last
  }

  /** Nothing of the transfer is left behind: no active set and no rescue entry of its key. */
  ghost predicate Cleared(m: Memory, key: RescueKey) {
    (forall k :: k in m.sets ==> m.sets[k].Key() != key) && key !in m.rescue
  }

  // ----- One event -----

  lemma PieceFits(m: Memory, t: Transfer, pieces: Pieces, bound: nat, i: nat, last: real)
    requires t.Carriable() && Holds(m, t, pieces, last) && Bounded(pieces, t.Total(), bound) && i < t.Total()
    requires |t.list[i]| <= bound && t.Total() * bound <= MAX_FRAGMENT_TOTAL_BYTES && RoomBeside(m, t, bound)
    ensures Bounded(pieces[i := t.list[i]], t.Total(), bound)
    ensures Fits(m, t.PieceAt(i))
    ensures PieceBytes(pieces[i := t.list[i]])
         == PieceBytes(pieces) - OldSize(m.sets[t.fragId], i) + |t.list[i]|
  {
    SumInsert(pieces, Length, i, t.list[i]);
    BoundedBytes(pieces[i := t.list[i]], t.Total(), bound);
  }

  /** What one more piece comes to: the whole string and nothing left behind, or a set with one more piece. */
  ghost predicate Advances(t: Transfer, next: Pieces, after: Memory, outcome: Outcome, now: real) {
    if Complete(next, t.Total())
    then outcome == Completed(JoinPieces(next, t.Total())) && Cleared(after, t.Key())
    else outcome == Waiting && Holds(after, t, next, now)
  }

  /** One more piece of the transfer, new or repeated: it completes the set or is simply added. */
  lemma ReceiveOne(
    m: Memory, t: Transfer, inherited: Pieces, bound: nat, pieces: Pieces, last: real, i: nat, now: real)
    requires t.Carriable() && Sized(t, inherited, bound) && RoomBeside(m, t, bound)
    requires Holds(m, t, pieces, last) && Bounded(pieces, t.Total(), bound) && i < t.Total()
    ensures Bounded(pieces[i := t.list[i]], t.Total(), bound)
    ensures
      var (after, outcome) := AddPiece(m, t.PieceAt(i), now);
      Advances(t, pieces[i := t.list[i]], after, outcome, now)
  {
    PieceFits(m, t, pieces, bound, i, last);
    CompleteCounted(pieces[i := t.list[i]], t.Total());
  }

  lemma HandleIsHandlePiece(m: Memory, t: Transfer, i: nat, created: real, touched: real)
    requires t.Carriable() && i < t.Total()
    ensures Packable(t.PieceAt(i))
    ensures Handle(m, t.sender, EncodePiece(t.PieceAt(i)), created, touched)
         == HandlePiece(m, t.sender, t.PieceAt(i), created, touched)
  {
    FieldSizes();
    PieceRoundTrip(t.PieceAt(i));
  }

  /** The first piece opens a set with the inherited pieces. */
  lemma FirstPiece(m: Memory, t: Transfer, inherited: Pieces, bound: nat, i: nat, created: real, touched: real)
    requires t.Carriable() && Sized(t, inherited, bound) && RoomBeside(m, t, bound) && i < t.Total()
    requires t.fragId !in m.sets && |m.sets| < MAX_ACTIVE_FRAGMENT_SETS
    requires Inherited(m, t.Key(), created) == inherited
    ensures Bounded(inherited[i := t.list[i]], t.Total(), bound)
    ensures
      var (after, outcome) := HandlePiece(m, t.sender, t.PieceAt(i), created, touched);
      Advances(t, inherited[i := t.list[i]], after, outcome, touched)
  {
    ReceiveOne(OpenSet(m, t.fragId, t.Key(), created), t, inherited, bound, inherited, created, i, touched);
  }

  /** An event that is not about the transfer: a fragment of another id, even one of another attempt under the same key,
      unless it completes that attempt; or a sweep at most 30 s after `last`, when the transfer's last fragment came. */
  ghost predicate LeavesAlone(m: Memory, t: Transfer, e: Event, last: real) {
    match e
    case Arrive(sender, payload, created, _) =>
      Considered(payload) ==>
        var x := DecodePiece(payload).value;
        x.fragId != t.fragId && !(Finishes(m, sender, x, created) && KeyOf(m, sender, x) == t.Key())
    case Sweep(now, _) => t.fragId in m.sets ==> now - last <= 30_000.0
  }

  lemma {:induction false} ExpirySpares(m: Memory, order: seq<bytes>, now: real, k: bytes)
    requires k in m.sets && !Expired(m.sets[k], now)
    ensures k in ExpireSets(m, order, now).sets && ExpireSets(m, order, now).sets[k] == m.sets[k]
    decreases |order|
  {
    if order != [] {
      ExpirySpares(m, order[..|order| - 1], now, k);
    }
  }

  /** Such an event leaves the transfer's set as it is, whatever else it does. */
  lemma OthersSpareIt(
    m: Memory, t: Transfer, e: Event, last: real, after: Memory, outcome: Outcome, persistent: bool)
    requires t.fragId in m.sets && m.sets[t.fragId].Key() == t.Key() && m.sets[t.fragId].lastFragmentMs == last
    requires LeavesAlone(m, t, e, last) && Step(m, e, after, outcome, persistent)
    ensures t.fragId in after.sets && after.sets[t.fragId] == m.sets[t.fragId]
  {
    match e
    case Arrive(sender, payload, created, touched) =>
      if Considered(payload) {
        SetKeptExactly(m, sender, DecodePiece(payload).value, created, touched, t.fragId);
      }
    case Sweep(now, order) => ExpirySpares(DropStale(m, now), order, now, t.fragId);
  }

  // ----- A transfer among others -----

  /** Event j brings a piece of the transfer, or is about something else. */
  datatype Part = Own(index: nat) | Other

  /** A run of a manager, and which of its events belong to the transfer. */
  datatype Trace = Trace(
    states: seq<Memory>, events: seq<Event>, outcomes: seq<Outcome>, persistent: bool, parts: seq<Part>)

  ghost predicate IsPiece(t: Transfer, i: nat, e: Event) {
    && i < t.Total() && Packable(t.PieceAt(i))
    && e.Arrive? && e.sender == t.sender && e.payload == EncodePiece(t.PieceAt(i))
  }

  ghost predicate IsPart(t: Transfer, part: Part, m: Memory, e: Event, last: real) {
    match part
    case Own(i) => IsPiece(t, i, e)
    case Other => LeavesAlone(m, t, e, last)
  }

  /** When the last piece among the first n events came. */
  function LastTouch(parts: seq<Part>, events: seq<Event>, n: nat): real
    requires n <= |parts| == |events|
  {
    if n == 0 then 0.0
    else if parts[n - 1].Own? && events[n - 1].Arrive? then events[n - 1].touched
    else LastTouch(parts, events, n - 1)
  }

  ghost predicate Carries(r: Trace, t: Transfer) {
    && IsRun(r.states, r.events, r.outcomes, r.persistent) && |r.parts| == |r.events|
    && forall j :: 0 <= j < |r.parts| ==>
         IsPart(t, r.parts[j], r.states[j], r.events[j], LastTouch(r.parts, r.events, j))
  }

  /** The indices received, in order of arrival. */
  function Received(parts: seq<Part>): seq<nat> {
    if parts == [] then []
    else
      var last := parts[|parts| - 1];
      if last.Own? then Received(parts[..|parts| - 1]) + [last.index] else Received(parts[..|parts| - 1])
  }

  lemma {:induction false} ReceivedBelow(parts: seq<Part>, total: nat)
    requires forall j :: 0 <= j < |parts| && parts[j].Own? ==> parts[j].index < total
    ensures forall j :: 0 <= j < |Received(parts)| ==> Received(parts)[j] < total
  {
    if parts != [] {
      ReceivedBelow(parts[..|parts| - 1], total);
    }
  }

  /** The transfer begins with the first event, and at each of its pieces there is room for all of it. */
  ghost predicate Begins(r: Trace, t: Transfer, inherited: Pieces, bound: nat) {
    && t.Carriable() && Sized(t, inherited, bound) && Carries(r, t)
    && r.parts != [] && r.parts[0].Own?
    && t.fragId !in r.states[0].sets && |r.states[0].sets| < MAX_ACTIVE_FRAGMENT_SETS
    && Inherited(r.states[0], t.Key(), r.events[0].created) == inherited
    && forall j :: 0 <= j < |r.parts| && r.parts[j].Own? ==> RoomBeside(r.states[j], t, bound)
  }

  lemma CarriedBelow(r: Trace, t: Transfer, n: nat)
    requires Carries(r, t) && n <= |r.parts|
    ensures forall j :: 0 <= j < |Received(r.parts[..n])| ==> Received(r.parts[..n])[j] < t.Total()
  {
    forall j | 0 <= j < n && r.parts[..n][j].Own?
      ensures r.parts[..n][j].index < t.Total()
    {
      assert IsPart(t, r.parts[j], r.states[j], r.events[j], LastTouch(r.parts, r.events, j));
    }
    ReceivedBelow(r.parts[..n], t.Total());
  }

  lemma {:induction false} CoveredIsComplete(inherited: Pieces, t: Transfer, order: seq<nat>)
    requires forall j :: 0 <= j < |order| ==> order[j] < |t.list|
    ensures Complete(Overlay(inherited, t.list, order), t.Total()) <==> Covered(inherited, order, t.Total())
  {
    forall i: nat
      ensures i in Overlay(inherited, t.list, order) <==> i in inherited || i in order
    {
      OverlayAt(inherited, t.list, order, i);
    }
  }

  /** The indices of the first n events. */
  function Order(r: Trace, t: Transfer, n: nat): (order: seq<nat>)
    requires Carries(r, t) && n <= |r.parts|
    ensures forall j :: 0 <= j < |order| ==> order[j] < t.Total()
  {
    CarriedBelow(r, t, n);
    Received(r.parts[..n])
  }

  lemma OrderNext(r: Trace, t: Transfer, n: nat)
    requires Carries(r, t) && n < |r.parts|
    ensures Order(r, t, n + 1) ==
            if r.parts[n].Own? then Order(r, t, n) + [r.parts[n].index] else Order(r, t, n)
    ensures Order(r, t, 0) == []
  {
    ReceivedNext(r.parts, n);
  }

  lemma {:induction false} ReceivedNext(parts: seq<Part>, n: nat)
    requires n < |parts|
    ensures Received(parts[..n + 1]) ==
            if parts[n].Own? then Received(parts[..n]) + [parts[n].index] else Received(parts[..n])
  {
    assert parts[..n + 1][..n] == parts[..n];
  }

  /** What the set holds after n events, when it is not complete before. */
  ghost function PiecesAfter(r: Trace, t: Transfer, inherited: Pieces, n: nat): Pieces
    requires Carries(r, t) && n <= |r.parts|
  {
    Overlay(inherited, t.list, Order(r, t, n))
  }

  lemma PiecesNext(r: Trace, t: Transfer, inherited: Pieces, n: nat)
    requires Carries(r, t) && n < |r.parts|
    ensures PiecesAfter(r, t, inherited, 0) == inherited
    ensures r.parts[n].Own? ==> IsPiece(t, r.parts[n].index, r.events[n])
    ensures PiecesAfter(r, t, inherited, n + 1) ==
            if r.parts[n].Other? then PiecesAfter(r, t, inherited, n)
            else PiecesAfter(r, t, inherited, n)[r.parts[n].index := t.list[r.parts[n].index]]
  {
    OrderNext(r, t, n);
    assert IsPart(t, r.parts[n], r.states[n], r.events[n], LastTouch(r.parts, r.events, n));
    if r.parts[n].Own? {
      var order := Order(r, t, n + 1);
      assert order[..|order| - 1] == Order(r, t, n);
    }
  }

  /** Before the last of the first n events some index was missing. */
  ghost predicate MissingBefore(r: Trace, t: Transfer, inherited: Pieces, n: nat)
    requires n <= |r.parts|
  {
    n > 1 ==> !Covered(inherited, Received(r.parts[..n - 1]), t.Total())
  }

  /** After n events no index is missing. */
  ghost predicate NothingMissing(r: Trace, t: Transfer, inherited: Pieces, n: nat)
    requires n <= |r.parts|
  {
    Covered(inherited, Received(r.parts[..n]), t.Total())
  }

  /** A transfer among any other fragments and sweeps, from whatever pieces the rescue cache hands down: as long as
      the inherited and the received indices leave a gap, and no sweep comes more than 30 s after its last piece, its
      pieces return nothing and its set holds exactly the pieces so far; the piece that closes the last gap completes
      exactly the overlay, and nothing of the transfer is left behind. */
  lemma {:induction false} TransferCompletes(r: Trace, t: Transfer, inherited: Pieces, bound: nat, n: nat)
    requires Begins(r, t, inherited, bound) && 0 < n <= |r.parts|
    requires MissingBefore(r, t, inherited, n)
    ensures
      var pieces := PiecesAfter(r, t, inherited, n);
      && Bounded(pieces, t.Total(), bound)
      && if r.parts[n - 1].Own?
         then Advances(t, pieces, r.states[n], r.outcomes[n - 1], LastTouch(r.parts, r.events, n))
         else !Complete(pieces, t.Total()) && Holds(r.states[n], t, pieces, LastTouch(r.parts, r.events, n))
  {
    PiecesNext(r, t, inherited, n - 1);
    assert Step(r.states[n - 1], r.events[n - 1], r.states[n], r.outcomes[n - 1], r.persistent);
    if n == 1 {
      var e := r.events[0];
      HandleIsHandlePiece(r.states[0], t, r.parts[0].index, e.created, e.touched);
      FirstPiece(r.states[0], t, inherited, bound, r.parts[0].index, e.created, e.touched);
    } else {
      EarlierMissing(r, t, inherited, n);
      TransferCompletes(r, t, inherited, bound, n - 1);
      CoveredIsComplete(inherited, t, Order(r, t, n - 1));
      NextEvent(r, t, inherited, bound, n);
    }
  }

  lemma EarlierMissing(r: Trace, t: Transfer, inherited: Pieces, n: nat)
    requires Carries(r, t) && 1 < n <= |r.parts| && MissingBefore(r, t, inherited, n)
    ensures MissingBefore(r, t, inherited, n - 1)
  {
    if n > 2 {
      OrderNext(r, t, n - 2);
    }
  }

  lemma NextEvent(r: Trace, t: Transfer, inherited: Pieces, bound: nat, n: nat)
    requires Begins(r, t, inherited, bound) && 1 < n <= |r.parts|
    requires
      var pieces := PiecesAfter(r, t, inherited, n - 1);
      && Bounded(pieces, t.Total(), bound) && !Complete(pieces, t.Total())
      && Holds(r.states[n - 1], t, pieces, LastTouch(r.parts, r.events, n - 1))
    ensures
      var pieces := PiecesAfter(r, t, inherited, n);
      && Bounded(pieces, t.Total(), bound)
      && if r.parts[n - 1].Own?
         then Advances(t, pieces, r.states[n], r.outcomes[n - 1], LastTouch(r.parts, r.events, n))
         else !Complete(pieces, t.Total()) && Holds(r.states[n], t, pieces, LastTouch(r.parts, r.events, n))
  {
    var m, e := r.states[n - 1], r.events[n - 1];
    var last := LastTouch(r.parts, r.events, n - 1);
    var pieces := PiecesAfter(r, t, inherited, n - 1);
    PiecesNext(r, t, inherited, n - 1);
    assert Step(m, e, r.states[n], r.outcomes[n - 1], r.persistent);
    assert IsPart(t, r.parts[n - 1], m, e, last);
    if r.parts[n - 1].Own? {
      var i := r.parts[n - 1].index;
      HandleIsHandlePiece(m, t, i, e.created, e.touched);
      ReceiveOne(m, t, inherited, bound, pieces, last, i, e.touched);
    } else {
      OthersSpareIt(m, t, e, last, r.states[n], r.outcomes[n - 1], r.persistent);
    }
  }
}
