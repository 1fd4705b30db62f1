/** What one fragment costs: exactly which sets it leaves in place, and inputs at which a set or the call is lost. */
module Survival {
  import opened Bytes
  import opened Fragmentation
  import opened Reassembly
  import opened Attempts

  /** Does the piece agree with the header of the set it belongs to? */
  predicate Agrees(m: Memory, x: Piece)
    requires x.fragId in m.sets
  {
    m.sets[x.fragId].total == x.total && m.sets[x.fragId].originalType == x.originalType
  }

  /** Is the piece, once stored, the last one missing? */
  predicate IsLast(m: Memory, x: Piece)
    requires x.fragId in m.sets
  {
    var pieces := m.sets[x.fragId].fragments[x.index := x.data];
    |pieces| == x.total && Complete(pieces, x.total)
  }

  /** The key of the piece's set, or of the set it would open. */
  function KeyOf(m: Memory, sender: bytes, x: Piece): RescueKey {
    if x.fragId in m.sets then m.sets[x.fragId].Key() else RescueKey(sender, x.total, x.originalType)
  }

  /** Does the piece complete a transfer? */
  ghost predicate Finishes(m: Memory, sender: bytes, x: Piece, created: real) {
    if x.fragId in m.sets then Agrees(m, x) && Fits(m, x) && IsLast(m, x)
    else
      var started := OpenSet(m, x.fragId, KeyOf(m, sender, x), created);
      |m.sets| < MAX_ACTIVE_FRAGMENT_SETS && Fits(started, x) && IsLast(started, x)
  }

  /** Storing a piece: which sets stay. */
  lemma AddKeepsExactly(m: Memory, x: Piece, now: real, k: bytes)
    requires k in m.sets && x.fragId in m.sets
    ensures
      var after := AddPiece(m, x, now).0;
      var finished := Fits(m, x) && IsLast(m, x);
      && (k in after.sets <==>
            if k == x.fragId then Fits(m, x) && !finished
            else !(finished && m.sets[k].Key() == m.sets[x.fragId].Key()))
      && (k in after.sets && k != x.fragId ==> after.sets[k] == m.sets[k])
  {
    if Fits(m, x) {
      var stored := StorePiece(m, x, now);
      assert k != x.fragId ==> stored.sets[k] == m.sets[k];
      assert stored.sets[k].Key() == m.sets[k].Key();
      assert stored.sets[x.fragId].Key() == m.sets[x.fragId].Key();
    }
  }

  /** A set that was there before a piece is there after it, exactly: its own set if the headers agree, both byte caps
      hold and nothing is complete yet; any other set unless the piece completes a transfer of the same key. The test
      that was meant to spare a set at the global cap spares none. */
  lemma SetKeptExactly(m: Memory, sender: bytes, x: Piece, created: real, touched: real, k: bytes)
    requires k in m.sets
    ensures
      var after := HandlePiece(m, sender, x, created, touched).0;
      && (k in after.sets <==>
            if k == x.fragId then Agrees(m, x) && Fits(m, x) && !IsLast(m, x)
            else !(Finishes(m, sender, x, created) && m.sets[k].Key() == KeyOf(m, sender, x)))
      && (k in after.sets && k != x.fragId ==> after.sets[k] == m.sets[k])
  {
    if x.fragId in m.sets {
      AddKeepsExactly(m, x, touched, k);
    } else if |m.sets| < MAX_ACTIVE_FRAGMENT_SETS {
      var started := OpenSet(m, x.fragId, KeyOf(m, sender, x), created);
      assert started.sets[k] == m.sets[k];
      AddKeepsExactly(started, x, touched, k);
    }
  }

  // ----- Inputs -----

  lemma HandlePacked(m: Memory, sender: bytes, x: Piece, created: real, touched: real)
    requires Packable(x) && x.total <= MAX_FRAGMENTS_PER_ID && x.data != []
    ensures Handle(m, sender, EncodePiece(x), created, touched) == HandlePiece(m, sender, x, created, touched)
  {
    PieceRoundTrip(x);
  }

  /** The only set of a manager that has received one piece of several. */
  function FirstSet(sender: bytes, x: Piece, now: real): FragmentSet {
    FragmentSet(x.originalType, x.total, now, now, sender, 1, map[x.index := x.data], |x.data|)
  }

  lemma FirstStored(sender: bytes, x: Piece, now: real)
    requires x.total > 1 && |x.data| <= MAX_FRAGMENT_TOTAL_BYTES
    ensures
      var after := HandlePiece(EMPTY, sender, x, now, now).0;
      after.sets == map[x.fragId := FirstSet(sender, x, now)] && after.globalBytes == |x.data|
  {
    var started := OpenSet(EMPTY, x.fragId, RescueKey(sender, x.total, x.originalType), now);
    assert PieceBytes(map[]) == 0;
    assert started.sets[x.fragId].fragments == map[];
    assert Fits(started, x);
  }

  lemma OnlySetLost(m: Memory, sender: bytes, x: Piece, created: real, touched: real)
    requires m.sets.Keys == {x.fragId} && !Fits(m, x)
    ensures HandlePiece(m, sender, x, created, touched).0.sets == map[]
  {
  }

  /** A set of one MiB, the cap, and then one byte more under another index: all of it is lost. */
  lemma FullSetIsLost(sender: bytes, fragId: bytes, now: real)
    requires |fragId| == FRAGMENT_ID_SIZE
    ensures
      var big := Piece(fragId, 0, 3, 0x02, Repeat(7, MAX_FRAGMENT_TOTAL_BYTES));
      var small := Piece(fragId, 1, 3, 0x02, [7]);
      && Packable(big) && Packable(small)
      && var full := Handle(EMPTY, sender, EncodePiece(big), now, now).0;
         && full.sets == map[fragId := FirstSet(sender, big, now)]
         && Handle(full, sender, EncodePiece(small), now, now).0.sets == map[]
  {
    FieldSizes();
    var big := Piece(fragId, 0, 3, 0x02, Repeat(7, MAX_FRAGMENT_TOTAL_BYTES));
    var small := Piece(fragId, 1, 3, 0x02, [7]);
    HandlePacked(EMPTY, sender, big, now, now);
    FirstStored(sender, big, now);
    var full := HandlePiece(EMPTY, sender, big, now, now).0;
    HandlePacked(full, sender, small, now, now);
    OnlySetLost(full, sender, small, now, now);
  }

  /** At the global cap even a repeated piece, which the source means to spare, costs its set: four MiB are held and the
      piece comes back one byte longer. */
  lemma RepeatAtGlobalCapIsLost(m: Memory, sender: bytes, x: Piece, created: real, touched: real)
    requires m.globalBytes == MAX_GLOBAL_FRAGMENT_BYTES
    requires x.fragId in m.sets && x.index in m.sets[x.fragId].fragments
    requires |x.data| == |m.sets[x.fragId].fragments[x.index]| + 1
    ensures HandlePiece(m, sender, x, created, touched) == (RemoveSet(m, x.fragId), Waiting)
  {
  }

  /** A first piece with an index past the end of its transfer: the count is reached, and the join raises KeyError. */
  lemma KeyErrorReached(sender: bytes, fragId: bytes, now: real)
    requires |fragId| == FRAGMENT_ID_SIZE
    ensures
      var x := Piece(fragId, 1, 1, 0x02, [7]);
      Packable(x) && Handle(EMPTY, sender, EncodePiece(x), now, now).1 == Broken
  {
    FieldSizes();
    var x := Piece(fragId, 1, 1, 0x02, [7]);
    HandlePacked(EMPTY, sender, x, now, now);
    var started := OpenSet(EMPTY, fragId, RescueKey(sender, 1, 0x02), now);
    BrokenExactly(started, x, now);
    assert started.sets[fragId].fragments[1 := [7]] == map[1 := [7]];
  }
}
