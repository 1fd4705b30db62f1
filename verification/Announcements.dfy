/** The ANNOUNCE payload of protocol/announce.py: a list of tagged, length-prefixed values. */
module Announcements {
  import opened Bytes
  import opened Utf8

  const TAG_NICKNAME: byte := 0x01
  const TAG_NOISE_PUB: byte := 0x02
  const TAG_SIGN_PUB: byte := 0x03
  const MAX_NICKNAME := 15

  datatype Announcement = Announcement(nickname: bytes, noisePub: bytes, signPub: bytes)

  /** A decoder that replaces what is not UTF-8 leaves UTF-8 alone. */
  ghost predicate KeepsText(lossy: bytes -> bytes) {
    forall s: bytes :: IsText(s) ==> lossy(s) == s
  }

  datatype Entry = Entry(tag: byte, value: bytes)
  {
    predicate Fits() {
      |value| <= 255
    }

    predicate IsKnown() {
      tag in {TAG_NICKNAME, TAG_NOISE_PUB, TAG_SIGN_PUB}
    }
  }

  function EntryBytes(e: Entry): bytes
    requires e.Fits()
  {
    [e.tag, |e.value|] + e.value
  }

  predicate AllFit(entries: seq<Entry>) {
    forall e :: e in entries ==> e.Fits()
  }

  function ListBytes(entries: seq<Entry>): bytes
    requires AllFit(entries)
  {
    if entries == [] then [] else EntryBytes(entries[0]) + ListBytes(entries[1..])
  }

  // ----- Encoding -----

  function CutNickname(nickname: bytes): bytes {
    if |nickname| > MAX_NICKNAME then nickname[..MAX_NICKNAME] else nickname
  }

  function EntriesOf(a: Announcement): seq<Entry> {
    [Entry(TAG_NICKNAME, CutNickname(a.nickname)), Entry(TAG_NOISE_PUB, a.noisePub), Entry(TAG_SIGN_PUB, a.signPub)]
  }

  /** encode_announce: a value over 255 bytes is a ValueError. */
  function EncodeAnnounce(a: Announcement): Option<bytes> {
    if !AllFit(EntriesOf(a)) then None else Some(ListBytes(EntriesOf(a)))
  }

  method WriteAnnounce(a: Announcement) returns (r: Option<bytes>)
    ensures r == EncodeAnnounce(a)
  {
    var entries := EntriesOf(a);
    var out: bytes := [];
    for i := 0 to |entries|
      invariant AllFit(entries[..i])
      invariant out == ListBytes(entries[..i])
    {
      if |entries[i].value| > 255 {
        assert entries[i] in EntriesOf(a);
        return None;
      }
      assert entries[..i + 1] == entries[..i] + [entries[i]];
      ListBytesAppend(entries[..i], [entries[i]]);
      assert ListBytes([entries[i]]) == EntryBytes(entries[i]) + ListBytes([]);
      out := out + ([entries[i].tag, |entries[i].value|] + entries[i].value);
    }
    assert entries[..|entries|] == entries;
    r := Some(out);
  }

  lemma {:induction false} ListBytesAppend(a: seq<Entry>, b: seq<Entry>)
    requires AllFit(a) && AllFit(b)
    ensures AllFit(a + b)
    ensures ListBytes(a + b) == ListBytes(a) + ListBytes(b)
  {
    if a == [] {
      assert a + b == b;
    } else {
      ListBytesAppend(a[1..], b);
      assert (a + b)[1..] == a[1..] + b;
    }
  }

  // ----- Decoding -----

  datatype Fields = Fields(nickname: Option<bytes>, noisePub: Option<bytes>, signPub: Option<bytes>)
  {
    function Set(e: Entry, lossy: bytes -> bytes): Fields {
      if e.tag == TAG_NICKNAME then this.(nickname := Some(lossy(e.value)))
      else if e.tag == TAG_NOISE_PUB then this.(noisePub := Some(e.value))
      else if e.tag == TAG_SIGN_PUB then this.(signPub := Some(e.value))
      else this
    }

    function SetAll(entries: seq<Entry>, lossy: bytes -> bytes): Fields
      decreases |entries|
    {
      if entries == [] then this else Set(entries[0], lossy).SetAll(entries[1..], lossy)
    }

    function Complete(): Option<Announcement> {
      if nickname.None? || noisePub.None? || signPub.None? then None
      else Some(Announcement(nickname.value, noisePub.value, signPub.value))
    }
  }

  const NO_FIELDS := Fields(None, None, None)

  /** The entries of a payload; a value that is cut off makes the whole payload malformed, a lone last byte does not. */
  function ReadEntries(d: bytes): Option<seq<Entry>> {
    if |d| < 2 then Some([])
    else if 2 + d[1] > |d| then None
    else
      var more :- ReadEntries(d[2 + d[1]..]);
      Some([Entry(d[0], d[2..2 + d[1]])] + more)
  }

  /** decode_announce. */
  function DecodeAnnounce(lossy: bytes -> bytes, data: bytes): Option<Announcement> {
    var entries :- ReadEntries(data);
    NO_FIELDS.SetAll(entries, lossy).Complete()
  }

  method ReadAnnounce(lossy: bytes -> bytes, data: bytes) returns (r: Option<Announcement>)
    ensures r == DecodeAnnounce(lossy, data)
  {
    var nickname: Option<bytes>, noisePub: Option<bytes>, signPub: Option<bytes> := None, None, None;
    var i := 0;
    assert data[0..] == data;
    while i + 2 <= |data|
      invariant i <= |data|
      invariant ReadEntries(data).Some? <==> ReadEntries(data[i..]).Some?
      invariant ReadEntries(data).Some? ==>
                  NO_FIELDS.SetAll(ReadEntries(data).value, lossy)
                  == Fields(nickname, noisePub, signPub).SetAll(ReadEntries(data[i..]).value, lossy)
    {
      var tag, ln := data[i], data[i + 1];
      ghost var rest, start := data[i..], i;
      i := i + 2;
      if i + ln > |data| {
        return None;
      }
      var val := data[i..i + ln];
      i := i + ln;
      EntryAt(data, start, ln);
      if tag == TAG_NICKNAME {
        nickname := Some(lossy(val));
      } else if tag == TAG_NOISE_PUB {
        noisePub := Some(val);
      } else if tag == TAG_SIGN_PUB {
        signPub := Some(val);
      }
      EntriesFront(Entry(tag, val), ReadEntries(data[i..]));
    }
    if nickname.None? || noisePub.None? || signPub.None? {
      return None;
    }
    r := Some(Announcement(nickname.value, noisePub.value, signPub.value));
  }

  lemma EntryAt(data: bytes, start: nat, ln: nat)
    requires start + 2 + ln <= |data|
    ensures data[start..][2..2 + ln] == data[start + 2..start + 2 + ln]
    ensures data[start..][2 + ln..] == data[start + 2 + ln..]
  {
  }

  lemma EntriesFront(e: Entry, more: Option<seq<Entry>>)
    ensures more.Some? ==> ([e] + more.value)[0] == e && ([e] + more.value)[1..] == more.value
  {
  }

  // ----- Entries and bytes -----

  lemma EntryFirst(e: Entry, rest: bytes)
    requires e.Fits()
    ensures
      var d := EntryBytes(e) + rest;
      d[0] == e.tag && d[1] == |e.value| && d[2..2 + d[1]] == e.value && d[2 + d[1]..] == rest
  {
  }

  /** Reading a written list gives the list; one byte after it is ignored. */
  lemma {:induction false} ReadWritten(entries: seq<Entry>, tail: bytes)
    requires AllFit(entries) && |tail| < 2
    ensures ReadEntries(ListBytes(entries) + tail) == Some(entries)
  {
    if entries == [] {
      assert ListBytes(entries) + tail == tail;
    } else {
      var e := entries[0];
      var rest := ListBytes(entries[1..]) + tail;
      var d := ListBytes(entries) + tail;
      assert d == EntryBytes(e) + rest;
      EntryFirst(e, rest);
      ReadWritten(entries[1..], tail);
      assert [e] + entries[1..] == entries;
    }
  }

  /** Every payload that is not malformed is a written list, followed by at most one byte. */
  lemma {:induction false} ReadOnto(d: bytes) returns (tail: bytes)
    requires ReadEntries(d).Some?
    ensures AllFit(ReadEntries(d).value)
    ensures |tail| < 2 && d == ListBytes(ReadEntries(d).value) + tail
  {
    if |d| < 2 {
      tail := d;
    } else {
      var rest := d[2 + d[1]..];
      var e := Entry(d[0], d[2..2 + d[1]]);
      tail := ReadOnto(rest);
      assert d == EntryBytes(e) + rest;
      assert ([e] + ReadEntries(rest).value)[1..] == ReadEntries(rest).value;
    }
  }

  // ----- Forward compatibility -----

  /** The entries that today's decoder understands. */
  function Known(entries: seq<Entry>): seq<Entry> {
    if entries == [] then []
    else if entries[0].IsKnown() then [entries[0]] + Known(entries[1..])
    else Known(entries[1..])
  }

  lemma {:induction false} UnknownChangesNothing(f: Fields, entries: seq<Entry>, lossy: bytes -> bytes)
    ensures f.SetAll(entries, lossy) == f.SetAll(Known(entries), lossy)
    decreases |entries|
  {
    if entries != [] {
      var rest := entries[1..];
      UnknownChangesNothing(f.Set(entries[0], lossy), rest, lossy);
      if entries[0].IsKnown() {
        assert ([entries[0]] + Known(rest))[1..] == Known(rest);
      }
    }
  }

  /** Payloads whose known entries agree mean the same: entries with unknown tags may be put in, taken out or changed
      at any boundary of any payload, and a lone byte may follow. */
  lemma {:induction false} UnknownTagsIgnored(lossy: bytes -> bytes, a: bytes, entries: seq<Entry>, tail: bytes)
    requires ReadEntries(a).Some?
    requires AllFit(entries) && |tail| < 2
    requires Known(entries) == Known(ReadEntries(a).value)
    ensures DecodeAnnounce(lossy, ListBytes(entries) + tail) == DecodeAnnounce(lossy, a)
  {
    ReadWritten(entries, tail);
    UnknownChangesNothing(NO_FIELDS, entries, lossy);
    UnknownChangesNothing(NO_FIELDS, ReadEntries(a).value, lossy);
  }

  lemma {:induction false} KnownAppend(a: seq<Entry>, b: seq<Entry>)
    ensures Known(a + b) == Known(a) + Known(b)
  {
    if a == [] {
      assert a + b == b;
    } else {
      KnownAppend(a[1..], b);
      assert (a + b)[1..] == a[1..] + b;
    }
  }

  predicate NoneKnown(entries: seq<Entry>) {
    forall e :: e in entries ==> !e.IsKnown()
  }

  lemma {:induction false} NoneKnownIsEmpty(extra: seq<Entry>)
    requires NoneKnown(extra)
    ensures Known(extra) == []
  {
    if extra != [] {
      NoneKnownIsEmpty(extra[1..]);
    }
  }

  lemma {:induction false} KnownSpliced(before: seq<Entry>, extra: seq<Entry>, after: seq<Entry>)
    requires NoneKnown(extra)
    ensures Known(before + extra + after) == Known(before + after)
  {
    KnownAppend(before, extra);
    KnownAppend(before + extra, after);
    KnownAppend(before, after);
    NoneKnownIsEmpty(extra);
    assert Known(before) + [] == Known(before);
  }

  lemma {:induction false} ReadJoined(before: seq<Entry>, after: seq<Entry>)
    requires AllFit(before) && AllFit(after)
    ensures ReadEntries(ListBytes(before) + ListBytes(after)) == Some(before + after)
  {
    ListBytesAppend(before, after);
    ReadWritten(before + after, []);
    assert ListBytes(before + after) + [] == ListBytes(before) + ListBytes(after);
  }

  /** In bytes: splicing unknown entries between the entries of any payload changes nothing. */
  lemma {:induction false} UnknownEntriesSpliced(
    lossy: bytes -> bytes, before: seq<Entry>, extra: seq<Entry>, after: seq<Entry>, tail: bytes)
    requires AllFit(before) && AllFit(extra) && AllFit(after)
    requires NoneKnown(extra) && |tail| < 2
    ensures DecodeAnnounce(lossy, ListBytes(before) + ListBytes(extra) + ListBytes(after) + tail)
         == DecodeAnnounce(lossy, ListBytes(before) + ListBytes(after))
  {
    ListBytesAppend(before, extra);
    ListBytesAppend(before + extra, after);
    ReadJoined(before, after);
    KnownSpliced(before, extra, after);
    UnknownTagsIgnored(lossy, ListBytes(before) + ListBytes(after), before + extra + after, tail);
  }

  lemma {:induction false} SetFirst(f: Fields, es: seq<Entry>, lossy: bytes -> bytes)
    requires es != []
    ensures f.SetAll(es, lossy) == f.Set(es[0], lossy).SetAll(es[1..], lossy)
  {
  }

  /** A receiver gets both keys and the nickname cut to fifteen bytes; a shorter nickname comes back whole. */
  lemma AnnounceRoundTrip(lossy: bytes -> bytes, a: Announcement, tail: bytes)
    requires EncodeAnnounce(a).Some? && |tail| < 2
    ensures DecodeAnnounce(lossy, EncodeAnnounce(a).value + tail)
         == Some(a.(nickname := lossy(CutNickname(a.nickname))))
    ensures KeepsText(lossy) && IsText(a.nickname) && |a.nickname| <= MAX_NICKNAME ==>
              DecodeAnnounce(lossy, EncodeAnnounce(a).value + tail) == Some(a)
  {
    var es := EntriesOf(a);
    ReadWritten(es, tail);
    SetFirst(NO_FIELDS, es, lossy);
    SetFirst(NO_FIELDS.Set(es[0], lossy), es[1..], lossy);
    SetFirst(NO_FIELDS.Set(es[0], lossy).Set(es[1], lossy), es[1..][1..], lossy);
  }
}
