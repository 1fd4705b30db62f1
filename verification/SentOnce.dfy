/** Private messages over all peers: no id is transmitted twice to anyone, whatever is interleaved. */
module SentOnce {
  import opened Bytes
  import opened Seqs
  import opened Sessions
  import opened SessionManagers
  import opened PendingSends
  import opened SessionRuns

  /** The ids that the send commands among `calls` hand out. */
  function HandedOut(calls: seq<Call>): seq<bytes> {
    if calls == [] then [] else HandedOut(calls[..|calls| - 1]) + HandedOutBy(calls[|calls| - 1])
  }

  function HandedOutBy(c: Call): seq<bytes> {
    if c.SendCall? && c.content != [] then [c.msgId] else []
  }

  /** Everything that was sent, to whomever. */
  function AllSent(sent: seq<Batch>): seq<Out> {
    if sent == [] then [] else AllSent(sent[..|sent| - 1]) + sent[|sent| - 1].out
  }

  /** Each peer was sent what its own run comes to; SessionRuns.Serve ensures it. */
  ghost predicate SentByRuns(readers: Readers, calls: seq<Call>, sent: seq<Batch>) {
    forall id {:trigger SentTo(id, sent)} ::
      SentTo(id, sent) == RunOf(readers.guess, STRANGER, EventsOf(readers, id, calls)).out
  }

  // ----- What was handed out for one peer, and for two -----

  lemma {:induction false} CommandedNext(es: seq<Event>, more: seq<Event>, m: bytes)
    requires |more| <= 1
    ensures Times(AllCommanded(es + more), m)
         == Times(AllCommanded(es), m) + if more == [] then 0 else Times(Commanded(more[0]), m)
  {
    if more == [] {
      AppendNothing(es);
    } else {
      WithoutLast(es, more[0]);
      assert more == [more[0]];
      TimesAppend(AllCommanded(es), Commanded(more[0]), m);
    }
  }

  /** What a call hands out, it hands out to one peer. */
  lemma {:induction false} CommandedAt(readers: Readers, a: PeerId, b: PeerId, c: Call, m: bytes)
    requires a != b
    ensures
      var atA, atB := EventsAt(readers, a, c), EventsAt(readers, b, c);
      (if atA == [] then 0 else Times(Commanded(atA[0]), m)) + (if atB == [] then 0 else Times(Commanded(atB[0]), m))
      <= Times(HandedOutBy(c), m)
  {
  }

  lemma {:induction false} HandedOutOnce(readers: Readers, a: PeerId, b: PeerId, calls: seq<Call>, m: bytes)
    requires a != b
    ensures Times(AllCommanded(EventsOf(readers, a, calls)), m) + Times(AllCommanded(EventsOf(readers, b, calls)), m)
         <= Times(HandedOut(calls), m)
  {
    if calls != [] {
      var n := |calls| - 1;
      HandedOutOnce(readers, a, b, calls[..n], m);
      CommandedAt(readers, a, b, calls[n], m);
      CommandedNext(EventsOf(readers, a, calls[..n]), EventsAt(readers, a, calls[n]), m);
      CommandedNext(EventsOf(readers, b, calls[..n]), EventsAt(readers, b, calls[n]), m);
      TimesAppend(HandedOut(calls[..n]), HandedOutBy(calls[n]), m);
    }
  }

  /** The account of two peers: what they were sent and what they lost is no more than what was handed out. */
  lemma {:induction false} TwoPeers(
    readers: Readers, a: PeerId, b: PeerId, calls: seq<Call>, sent: seq<Batch>, m: bytes)
    requires a != b && SentByRuns(readers, calls, sent)
    ensures
      Times(SentIds(SentTo(a, sent)), m) + Times(AllDropped(readers.guess, EventsOf(readers, a, calls)), m)
      + Times(SentIds(SentTo(b, sent)), m) + Times(AllDropped(readers.guess, EventsOf(readers, b, calls)), m)
      <= Times(HandedOut(calls), m)
  {
    HandedOutOnce(readers, a, b, calls, m);
    RunsConserve(readers.guess, EventsOf(readers, a, calls), m);
    RunsConserve(readers.guess, EventsOf(readers, b, calls), m);
  }

  // ----- Over all peers -----

  /** An id that is sent to no one but `a` is sent as often as it is sent to `a`. */
  lemma {:induction false} OnlyTo(sent: seq<Batch>, a: PeerId, m: bytes)
    requires forall id :: id != a ==> Times(SentIds(SentTo(id, sent)), m) == 0
    ensures Times(SentIds(AllSent(sent)), m) == Times(SentIds(SentTo(a, sent)), m)
  {
    if sent != [] {
      var before, last := sent[..|sent| - 1], sent[|sent| - 1];
      SplitLast(sent);
      forall id
        ensures Times(SentIds(SentTo(id, sent)), m)
             == Times(SentIds(SentTo(id, before)), m) + if last.to == id then Times(SentIds(last.out), m) else 0
      {
        SentToNext(id, before, last, m);
      }
      forall id | id != a
        ensures Times(SentIds(SentTo(id, before)), m) == 0
      {
        assert Times(SentIds(SentTo(id, sent)), m) == 0;
      }
      OnlyTo(before, a, m);
      assert last.to != a ==> Times(SentIds(SentTo(last.to, sent)), m) == 0;
      assert Times(SentIds(SentTo(a, sent)), m) ==
             Times(SentIds(SentTo(a, before)), m) + if last.to == a then Times(SentIds(last.out), m) else 0;
      SentIdsAppend(AllSent(before), last.out);
      TimesAppend(SentIds(AllSent(before)), SentIds(last.out), m);
    }
  }

  lemma {:induction false} SentToNext(id: PeerId, before: seq<Batch>, last: Batch, m: bytes)
    ensures Times(SentIds(SentTo(id, before + [last])), m)
         == Times(SentIds(SentTo(id, before)), m) + if last.to == id then Times(SentIds(last.out), m) else 0
  {
    SentNext(id, before, last);
    if last.to == id {
      SentIdsAppend(SentTo(id, before), last.out);
      TimesAppend(SentIds(SentTo(id, before)), SentIds(last.out), m);
    } else {
      AppendNothing(SentTo(id, before));
    }
  }

  /** Over any interleaving of packets, commands and timeouts: an id that is handed out once is transmitted at most
      once, to whomever; and if any peer's queue lost it, to a cancel, a LEAVE, a timeout or otherwise, it is never
      transmitted to anyone, before or after. */
  lemma {:induction false} AtMostOnceToAnyone(readers: Readers, calls: seq<Call>, sent: seq<Batch>, m: bytes)
    requires SentByRuns(readers, calls, sent) && Times(HandedOut(calls), m) <= 1
    ensures Times(SentIds(AllSent(sent)), m) <= 1
    ensures forall id :: m in AllDropped(readers.guess, EventsOf(readers, id, calls)) ==> m !in SentIds(AllSent(sent))
  {
    Owner(readers, calls, sent, m);
    forall id | m in AllDropped(readers.guess, EventsOf(readers, id, calls))
      ensures m !in SentIds(AllSent(sent))
    {
      TimesOccurs(AllDropped(readers.guess, EventsOf(readers, id, calls)), m);
      TimesOccurs(SentIds(AllSent(sent)), m);
      DroppedNotSent(readers, calls, sent, id, m);
    }
  }

  lemma {:induction false} DroppedNotSent(
    readers: Readers, calls: seq<Call>, sent: seq<Batch>, a: PeerId, m: bytes)
    requires SentByRuns(readers, calls, sent) && Times(HandedOut(calls), m) <= 1
    requires Times(AllDropped(readers.guess, EventsOf(readers, a, calls)), m) > 0
    ensures Times(SentIds(AllSent(sent)), m) == 0
  {
    forall id | id != a
      ensures Times(SentIds(SentTo(id, sent)), m) == 0
    {
      TwoPeers(readers, a, id, calls, sent, m);
    }
    TwoPeers(readers, a, a + [0], calls, sent, m);
    OnlyTo(sent, a, m);
  }

  lemma {:induction false} Owner(readers: Readers, calls: seq<Call>, sent: seq<Batch>, m: bytes)
    requires SentByRuns(readers, calls, sent) && Times(HandedOut(calls), m) <= 1
    ensures Times(SentIds(AllSent(sent)), m) <= 1
  {
    var a: PeerId := [];
    if exists id :: Times(SentIds(SentTo(id, sent)), m) > 0 {
      a :| Times(SentIds(SentTo(a, sent)), m) > 0;
    }
    forall id | id != a
      ensures Times(SentIds(SentTo(id, sent)), m) == 0
    {
      TwoPeers(readers, a, id, calls, sent, m);
    }
    TwoPeers(readers, a, a + [0], calls, sent, m);
    OnlyTo(sent, a, m);
  }
}
