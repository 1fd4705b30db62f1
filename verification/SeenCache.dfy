/** The bounded, time-windowed duplicate caches of mesh/relay_engine.py and daemon.py: ordered last-seen times. */
module SeenCaches {
  datatype Entry<K> = Entry(key: K, time: int)

  /** How long a mark counts, and how many marks are kept. */
  datatype Limits = Limits(window: int, capacity: nat)

  // ----- The ordered dictionary -----

  predicate HasKey<K(==)>(d: seq<Entry<K>>, key: K) {
    exists i :: 0 <= i < |d| && d[i].key == key
  }

  predicate DistinctKeys<K(==)>(d: seq<Entry<K>>) {
    forall i, j :: 0 <= i < j < |d| ==> d[i].key != d[j].key
  }

  /** The position of a key, or the length when it is absent. */
  function Position<K(==)>(d: seq<Entry<K>>, key: K): (i: nat)
    ensures i <= |d|
    ensures i < |d| ==> d[i].key == key
    ensures forall j :: 0 <= j < i ==> d[j].key != key
  {
    if d == [] || d[0].key == key then 0 else 1 + Position(d[1..], key)
  }

  function Delete<K(==)>(d: seq<Entry<K>>, key: K): seq<Entry<K>> {
    var i := Position(d, key);
    if i < |d| then d[..i] + d[i + 1..] else d
  }

  /** Assignment to a key that is first moved to the end. */
  function Put<K(==)>(d: seq<Entry<K>>, key: K, now: int): seq<Entry<K>> {
    Delete(d, key) + [Entry(key, now)]
  }

  /** The newest `n` entries. */
  function Newest<K>(d: seq<Entry<K>>, n: nat): seq<Entry<K>> {
    if |d| <= n then d else d[|d| - n..]
  }

  /** _is_seen: an entry past its window is dropped when it is looked up. */
  function Look<K(==)>(d: seq<Entry<K>>, key: K, now: int, limits: Limits): (bool, seq<Entry<K>>) {
    var i := Position(d, key);
    if i == |d| then (false, d)
    else if now - d[i].time < limits.window then (true, d)
    else (false, Delete(d, key))
  }

  /** _mark_seen. */
  function Mark<K(==)>(d: seq<Entry<K>>, key: K, now: int, limits: Limits): seq<Entry<K>> {
    Newest(Put(d, key, now), limits.capacity)
  }

  class SeenCache<K(==)> {
    const limits: Limits
    var entries: seq<Entry<K>>

    constructor (limits: Limits)
      ensures this.limits == limits && entries == []
    {
      this.limits := limits;
      entries := [];
    }

    method IsSeen(key: K, now: int) returns (seen: bool)
      modifies this
      ensures (seen, entries) == Look(old(entries), key, now, limits)
    {
      var i := Position(entries, key);
      if i < |entries| {
        var ts := entries[i].time;
        if now - ts < limits.window {
          return true;
        }
        entries := entries[..i] + entries[i + 1..];
      }
      seen := false;
    }

    method MarkSeen(key: K, now: int)
      modifies this
      ensures entries == Mark(old(entries), key, now, limits)
    {
      var i := Position(entries, key);
      if i < |entries| {
        entries := entries[..i] + entries[i + 1..] + [Entry(key, now)];
      } else {
        entries := entries + [Entry(key, now)];
      }
      ghost var put := entries;
      while |entries| > limits.capacity
        invariant |entries| <= |put| && entries == put[|put| - |entries|..]
        invariant |put| > limits.capacity ==> |entries| >= limits.capacity
        invariant |put| <= limits.capacity ==> entries == put
        decreases |entries|
      {
        entries := entries[1..];
      }
    }

    /** Look, and mark what was not seen: how both users of the cache call it. */
    method Admit(key: K, lookAt: int, markAt: int) returns (duplicate: bool)
      modifies this
      ensures
        var (seen, looked) := Look(old(entries), key, lookAt, limits);
        duplicate == seen && entries == if seen then looked else Mark(looked, key, markAt, limits)
    {
      duplicate := IsSeen(key, lookAt);
      if !duplicate {
        MarkSeen(key, markAt);
      }
    }
  }

  // ----- The unbounded log it stands for -----

  /** The index of the last mark of a key, or -1. */
  function LastMark<K(==)>(log: seq<Entry<K>>, key: K): (i: int)
    ensures -1 <= i < |log|
    ensures i >= 0 ==> log[i].key == key
    ensures forall j :: i < j < |log| ==> log[j].key != key
  {
    if log == [] then -1
    else if log[|log| - 1].key == key then |log| - 1
    else LastMark(log[..|log| - 1], key)
  }

  /** The last mark of the key is younger than the window, and fewer than the capacity of marks followed it. */
  predicate SeenInLog<K(==)>(log: seq<Entry<K>>, key: K, now: int, limits: Limits) {
    var i := LastMark(log, key);
    i >= 0 && now - log[i].time < limits.window && |log| - 1 - i < limits.capacity
  }

  predicate Ordered<K>(log: seq<Entry<K>>, now: int) {
    && (forall i, j :: 0 <= i < j < |log| ==> log[i].time <= log[j].time)
    && (log != [] ==> log[|log| - 1].time <= now)
  }

  /** How many of the latest marks are younger than the window. */
  function FreshCount<K>(log: seq<Entry<K>>, now: int, window: int): (n: nat)
    ensures n <= |log|
    ensures forall i :: |log| - n <= i < |log| ==> now - log[i].time < window
    ensures n < |log| ==> now - log[|log| - n - 1].time >= window
  {
    if log == [] || now - log[|log| - 1].time >= window then 0
    else 1 + FreshCount(log[..|log| - 1], now, window)
  }

  function Kept<K>(log: seq<Entry<K>>, now: int, limits: Limits): (n: nat)
    ensures n <= |log| && n <= limits.capacity
  {
    var young := FreshCount(log, now, limits.window);
    if young < limits.capacity then young else limits.capacity
  }

  /** The last `n` elements of the two sequences agree. */
  ghost predicate SameTail<T>(a: seq<T>, b: seq<T>, n: nat) {
    n <= |a| && n <= |b| && forall i :: |a| - n <= i < |a| ==> a[i] == b[i + |b| - |a|]
  }

  /** The dictionary is some expired entries followed by the fresh marks that the capacity keeps. */
  ghost predicate Represents<K>(d: seq<Entry<K>>, log: seq<Entry<K>>, now: int, limits: Limits) {
    var n := Kept(log, now, limits);
    && Ordered(log, now) && DistinctKeys(d) && |d| <= limits.capacity && SameTail(d, log, n)
    && forall i :: 0 <= i < |d| - n ==> now - d[i].time >= limits.window
  }

  lemma {:induction false} FreshCountShrinks<K>(log: seq<Entry<K>>, now: int, later: int, window: int)
    requires now <= later
    ensures FreshCount(log, later, window) <= FreshCount(log, now, window)
  {
    if log != [] && later - log[|log| - 1].time < window {
      FreshCountShrinks(log[..|log| - 1], now, later, window);
    }
  }

  /** As time passes the same dictionary still stands for the same log. */
  lemma RepresentsLater<K>(d: seq<Entry<K>>, log: seq<Entry<K>>, now: int, later: int, limits: Limits)
    requires Represents(d, log, now, limits) && now <= later
    ensures Represents(d, log, later, limits)
  {
    FreshCountShrinks(log, now, later, limits.window);
    var n := Kept(log, now, limits);
    var m := Kept(log, later, limits);
    forall i | 0 <= i < |d| - m
      ensures later - d[i].time >= limits.window
    {
      if i >= |d| - n {
        FreshCountCovers(log, later, limits.window, i + |log| - |d|);
      }
    }
  }

  /** Looking a key up answers exactly what the unbounded log says. */
  lemma LookAnswersLog<K>(d: seq<Entry<K>>, log: seq<Entry<K>>, key: K, now: int, limits: Limits)
    requires Represents(d, log, now, limits)
    ensures Look(d, key, now, limits).0 == SeenInLog(log, key, now, limits)
  {
    var p := Position(d, key);
    var i := LastMark(log, key);
    if p < |d| && now - d[p].time < limits.window {
      assert d[p] == log[p + |log| - |d|];
    }
    if SeenInLog(log, key, now, limits) {
      FreshCountCovers(log, now, limits.window, i);
      assert d[i + |d| - |log|] == log[i];
    }
    if p < |d| && now - d[p].time < limits.window {
      FreshCountCovers(log, now, limits.window, i);
    }
  }

  lemma {:induction false} FreshCountCovers<K>(log: seq<Entry<K>>, now: int, window: int, i: int)
    requires Ordered(log, now) && 0 <= i < |log|
    ensures now - log[i].time < window <==> i >= |log| - FreshCount(log, now, window)
  {
    var n := FreshCount(log, now, window);
    if i < |log| - n {
      assert log[i].time <= log[|log| - n - 1].time;
    }
  }

  lemma {:induction false} DeleteDropsOne<K>(d: seq<Entry<K>>, key: K)
    requires DistinctKeys(d)
    ensures DistinctKeys(Delete(d, key)) && !HasKey(Delete(d, key), key)
    ensures |Delete(d, key)| == if Position(d, key) < |d| then |d| - 1 else |d|
  {
  }

  /** Looking up drops at most an expired entry. */
  lemma LookKeepsLog<K>(d: seq<Entry<K>>, log: seq<Entry<K>>, key: K, now: int, limits: Limits)
    requires Represents(d, log, now, limits)
    ensures Represents(Look(d, key, now, limits).1, log, now, limits)
    ensures !Look(d, key, now, limits).0 ==> !HasKey(Look(d, key, now, limits).1, key)
  {
    var p := Position(d, key);
    if p < |d| && now - d[p].time >= limits.window {
      var n := Kept(log, now, limits);
      DeleteDropsOne(d, key);
      if p >= |d| - n {
        FreshCountCovers(log, now, limits.window, p + |log| - |d|);
      }
      assert SameTail(Delete(d, key), log, n);
    }
  }

  lemma {:induction false} FreshCountGrows<K>(log: seq<Entry<K>>, e: Entry<K>, window: int)
    requires window > 0
    ensures FreshCount(log + [e], e.time, window) == 1 + FreshCount(log, e.time, window)
  {
    assert (log + [e])[..|log|] == log;
  }

  lemma KeptGrows<K>(log: seq<Entry<K>>, e: Entry<K>, limits: Limits)
    requires limits.window > 0
    ensures
      var n := Kept(log, e.time, limits);
      Kept(log + [e], e.time, limits) == if n < limits.capacity then n + 1 else n
  {
    FreshCountGrows(log, e, limits.window);
  }

  lemma {:induction false} PutUnknown<K>(d: seq<Entry<K>>, key: K, now: int)
    requires !HasKey(d, key)
    ensures Put(d, key, now) == d + [Entry(key, now)]
  {
  }

  /** Marking a key that is not in the dictionary appends it to the log. */
  lemma MarkAppendsToLog<K>(d: seq<Entry<K>>, log: seq<Entry<K>>, key: K, now: int, limits: Limits)
    requires limits.window > 0 && limits.capacity > 0
    requires Represents(d, log, now, limits) && !HasKey(d, key)
    ensures Represents(Mark(d, key, now, limits), log + [Entry(key, now)], now, limits)
  {
    PutUnknown(d, key, now);
    AppendRepresents(d, log, Entry(key, now), limits);
  }

  lemma AppendRepresents<K>(d: seq<Entry<K>>, log: seq<Entry<K>>, e: Entry<K>, limits: Limits)
    requires limits.window > 0 && limits.capacity > 0
    requires Represents(d, log, e.time, limits) && !HasKey(d, e.key)
    ensures Represents(Newest(d + [e], limits.capacity), log + [e], e.time, limits)
  {
    var n := Kept(log, e.time, limits);
    KeptGrows(log, e, limits);
    AppendKeepsTail(d, log, e, n, e.time, limits.window);
    NewestRepresents(d + [e], log + [e], n + 1, e.time, limits);
  }

  lemma AppendKeepsTail<K>(d: seq<Entry<K>>, log: seq<Entry<K>>, e: Entry<K>, n: nat, now: int, window: int)
    requires DistinctKeys(d) && !HasKey(d, e.key) && Ordered(log, now) && e.time == now
    requires SameTail(d, log, n) && forall i :: 0 <= i < |d| - n ==> now - d[i].time >= window
    ensures DistinctKeys(d + [e]) && Ordered(log + [e], now)
    ensures SameTail(d + [e], log + [e], n + 1)
    ensures forall i :: 0 <= i < |d + [e]| - (n + 1) ==> now - (d + [e])[i].time >= window
  {
  }

  /** Trimming to the capacity keeps the tail that matters and only expired entries before it. */
  lemma NewestRepresents<K>(put: seq<Entry<K>>, log: seq<Entry<K>>, n: nat, now: int, limits: Limits)
    requires Ordered(log, now) && DistinctKeys(put) && |put| <= limits.capacity + 1
    requires SameTail(put, log, n) && forall i :: 0 <= i < |put| - n ==> now - put[i].time >= limits.window
    requires Kept(log, now, limits) == if n <= limits.capacity then n else limits.capacity
    ensures Represents(Newest(put, limits.capacity), log, now, limits)
  {
  }

  // ----- Whole runs -----

  /** One use of the cache: the key is looked up, and marked if it was not seen. */
  datatype Probe<K> = Probe(key: K, lookAt: int, markAt: int)

  /** Clock readings never go back. */
  predicate Forward<K>(probes: seq<Probe<K>>) {
    && (forall i :: 0 <= i < |probes| ==> probes[i].lookAt <= probes[i].markAt)
    && (forall i, j :: 0 <= i < j < |probes| ==> probes[i].markAt <= probes[j].lookAt)
  }

  datatype CacheRun<K> = CacheRun(state: seq<Entry<K>>, reports: seq<bool>)

  /** The bounded dictionary along a run. */
  function RunCache<K(==)>(probes: seq<Probe<K>>, limits: Limits): CacheRun<K> {
    if probes == [] then CacheRun([], [])
    else
      var before := RunCache(probes[..|probes| - 1], limits);
      var p := probes[|probes| - 1];
      var (seen, looked) := Look(before.state, p.key, p.lookAt, limits);
      CacheRun(if seen then looked else Mark(looked, p.key, p.markAt, limits), before.reports + [seen])
  }

  /** The unbounded log along the same run. */
  function RunLog<K(==)>(probes: seq<Probe<K>>, limits: Limits): CacheRun<K> {
    if probes == [] then CacheRun([], [])
    else
      var before := RunLog(probes[..|probes| - 1], limits);
      var p := probes[|probes| - 1];
      var seen := SeenInLog(before.state, p.key, p.lookAt, limits);
      CacheRun(if seen then before.state else before.state + [Entry(p.key, p.markAt)], before.reports + [seen])
  }

  /** One probe, on the dictionary and on the log. */
  lemma ProbeKeepsLog<K>(d: seq<Entry<K>>, log: seq<Entry<K>>, p: Probe<K>, now: int, limits: Limits)
    requires limits.window > 0 && limits.capacity > 0
    requires Represents(d, log, now, limits) && now <= p.lookAt <= p.markAt
    ensures
      var (seen, looked) := Look(d, p.key, p.lookAt, limits);
      && seen == SeenInLog(log, p.key, p.lookAt, limits)
      && Represents(if seen then looked else Mark(looked, p.key, p.markAt, limits),
                    if seen then log else log + [Entry(p.key, p.markAt)], p.markAt, limits)
  {
    RepresentsLater(d, log, now, p.lookAt, limits);
    LookAnswersLog(d, log, p.key, p.lookAt, limits);
    LookKeepsLog(d, log, p.key, p.lookAt, limits);
    var (seen, looked) := Look(d, p.key, p.lookAt, limits);
    RepresentsLater(looked, log, p.lookAt, p.markAt, limits);
    if !seen {
      MarkAppendsToLog(looked, log, p.key, p.markAt, limits);
    }
  }

  /** Along every run with a forward clock the bounded dictionary reports exactly what the unbounded log would. */
  lemma {:induction false} CacheAnswersLikeLog<K>(probes: seq<Probe<K>>, limits: Limits, start: int)
    requires limits.window > 0 && limits.capacity > 0
    requires Forward(probes) && (probes != [] ==> start <= probes[0].lookAt)
    ensures RunCache(probes, limits).reports == RunLog(probes, limits).reports
    ensures Represents(RunCache(probes, limits).state, RunLog(probes, limits).state,
                       if probes == [] then start else probes[|probes| - 1].markAt, limits)
  {
    if probes != [] {
      var before := probes[..|probes| - 1];
      CacheAnswersLikeLog(before, limits, start);
      ProbeKeepsLog(RunCache(before, limits).state, RunLog(before, limits).state, probes[|probes| - 1],
                    if before == [] then start else before[|before| - 1].markAt, limits);
    }
  }

  /** Two marks of one key are at least the window apart in time or the capacity apart in number. */
  predicate WellSpaced<K(==)>(log: seq<Entry<K>>, limits: Limits) {
    forall i, j :: 0 <= i < j < |log| && log[i].key == log[j].key ==>
      log[j].time - log[i].time >= limits.window || j - i > limits.capacity
  }

  lemma UnseenKeepsSpacing<K>(log: seq<Entry<K>>, p: Probe<K>, limits: Limits)
    requires WellSpaced(log, limits) && Ordered(log, p.lookAt) && p.lookAt <= p.markAt
    requires !SeenInLog(log, p.key, p.lookAt, limits)
    ensures WellSpaced(log + [Entry(p.key, p.markAt)], limits)
  {
    var longer := log + [Entry(p.key, p.markAt)];
    var last := LastMark(log, p.key);
    forall i | 0 <= i < |log| && log[i].key == p.key
      ensures p.markAt - log[i].time >= limits.window || |log| - i > limits.capacity
    {
      assert i <= last && log[i].time <= log[last].time;
    }
  }

  /** So over every run no key is admitted twice within the window and the capacity. */
  lemma {:induction false} AdmissionsWellSpaced<K>(probes: seq<Probe<K>>, limits: Limits)
    requires Forward(probes)
    ensures WellSpaced(RunLog(probes, limits).state, limits)
    ensures probes != [] ==> Ordered(RunLog(probes, limits).state, probes[|probes| - 1].markAt)
    ensures probes == [] ==> RunLog(probes, limits).state == []
  {
    if probes != [] {
      var before := probes[..|probes| - 1];
      AdmissionsWellSpaced(before, limits);
      var log := RunLog(before, limits).state;
      var p := probes[|probes| - 1];
      assert Ordered(log, p.lookAt);
      if !SeenInLog(log, p.key, p.lookAt, limits) {
        UnseenKeepsSpacing(log, p, limits);
      }
    }
  }
}
