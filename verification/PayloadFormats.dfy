/** The payload formats as an outside reader finds them, and what is read from payloads that no encoder here writes. */
module PayloadFormats {
  import opened Bytes
  import opened Seqs
  import opened Utf8
  import opened Fragmentation
  import opened Messages
  import opened Announcements
  import opened PrivatePayloads
  import opened WireFormat

  // ----- Fragments -----

  /** A fragment payload: eight bytes of id, index and total in two bytes each, the packet's type, and the data. */
  lemma FragmentBytes(x: Piece)
    requires |x.fragId| == 8 && x.index < 65_536 && x.total < 65_536 && x.originalType < 256
    ensures Packable(x)
    ensures EncodePiece(x) == x.fragId + Digits(x.index, 2) + Digits(x.total, 2) + [x.originalType] + x.data
  {
    FieldSizes();
    DigitsExactly(x.index, 2);
    DigitsExactly(x.total, 2);
  }

  // ----- ANNOUNCE -----

  /** The three entries in order: tag 1 and the nickname cut to fifteen bytes, tag 2 and tag 3 and the keys. */
  lemma AnnounceBytes(a: Announcement)
    ensures EncodeAnnounce(a).Some? <==> |a.noisePub| <= 255 && |a.signPub| <= 255
    ensures EncodeAnnounce(a).Some? ==>
              var nick := if |a.nickname| > 15 then a.nickname[..15] else a.nickname;
              EncodeAnnounce(a).value
              == [1, |nick|] + nick + ([2, |a.noisePub|] + a.noisePub + ([3, |a.signPub|] + a.signPub))
  {
    var es := EntriesOf(a);
    assert es[0] in es && es[1] in es && es[2] in es;
    if AllFit(es) {
      ListFirst(es);
      ListFirst(es[1..]);
      ListFirst(es[1..][1..]);
      AppendNothing(EntryBytes(es[2]));
    }
  }

  lemma {:induction false} ListFirst(es: seq<Entry>)
    requires es != [] && AllFit(es)
    ensures AllFit(es[1..]) && ListBytes(es) == EntryBytes(es[0]) + ListBytes(es[1..])
  {
  }

  /** The value of the last entry with a tag. */
  function LastValue(entries: seq<Entry>, tag: byte): Option<bytes> {
    if entries == [] then None
    else if entries[|entries| - 1].tag == tag then Some(entries[|entries| - 1].value)
    else LastValue(entries[..|entries| - 1], tag)
  }

  lemma {:induction false} SetAllAppend(f: Fields, a: seq<Entry>, b: seq<Entry>, lossy: bytes -> bytes)
    ensures f.SetAll(a + b, lossy) == f.SetAll(a, lossy).SetAll(b, lossy)
    decreases |a|
  {
    if a == [] {
      AppendNothing(b);
    } else {
      assert (a + b)[1..] == a[1..] + b;
      SetAllAppend(f.Set(a[0], lossy), a[1..], b, lossy);
    }
  }

  lemma {:induction false} LastValuesSet(entries: seq<Entry>, lossy: bytes -> bytes)
    ensures
      var f := NO_FIELDS.SetAll(entries, lossy);
      && f.nickname == (if LastValue(entries, 1).Some? then Some(lossy(LastValue(entries, 1).value)) else None)
      && f.noisePub == LastValue(entries, 2) && f.signPub == LastValue(entries, 3)
  {
    if entries != [] {
      var n := |entries| - 1;
      LastValuesSet(entries[..n], lossy);
      SplitLast(entries);
      SetAllAppend(NO_FIELDS, entries[..n], [entries[n]], lossy);
      SetFirst(NO_FIELDS.SetAll(entries[..n], lossy), [entries[n]], lossy);
    }
  }

  /** An ANNOUNCE is understood exactly when no entry is cut off and each of the tags 1, 2 and 3 occurs; the last
      occurrence of a tag counts. */
  lemma {:induction false} AnnounceReadExactly(lossy: bytes -> bytes, data: bytes)
    ensures
      var entries := ReadEntries(data);
      DecodeAnnounce(lossy, data)
      == if entries.None? || LastValue(entries.value, 1).None? || LastValue(entries.value, 2).None?
            || LastValue(entries.value, 3).None? then None
         else Some(Announcement(lossy(LastValue(entries.value, 1).value), LastValue(entries.value, 2).value,
                                LastValue(entries.value, 3).value))
  {
    if ReadEntries(data).Some? {
      LastValuesSet(ReadEntries(data).value, lossy);
    }
  }

  // ----- Messages -----

  /** The flags: 1 relay, 2 private, 4 original sender, 8 recipient nickname, 16 sender's peer id, 32 mentions,
      64 channel, 128 encrypted; an empty option counts as absent. */
  function MessageFlagsByte(m: Message): nat {
    (if m.isRelay then 1 else 0) + (if m.isPrivate then 2 else 0)
    + (if Given(m.originalSender) then 4 else 0) + (if Given(m.recipientNickname) then 8 else 0)
    + (if Given(m.senderPeerId) then 16 else 0) + (if Given(m.mentions) then 32 else 0)
    + (if Given(m.channel) then 64 else 0) + (if m.isEncrypted then 128 else 0)
  }

  /** A string in at most 255 bytes behind one byte of length, and a content in at most 65,535 behind two. */
  function ShortField(s: bytes): bytes {
    if |s| > 255 then [255] + s[..255] else [|s|] + s
  }

  function LongField(s: bytes): bytes {
    if |s| > 65_535 then [255, 255] + s[..65_535] else Digits(|s|, 2) + s
  }

  lemma LongExactly(s: bytes)
    ensures Long(s) == LongField(s)
  {
    DigitsExactly(|Clip(s, 65535)|, 2);
    assert Digits(65_535, 2) == [255, 255];
  }

  function OptionField(s: Option<bytes>): bytes {
    if s.Some? && s.value != [] then ShortField(s.value) else []
  }

  /** The count and the first 255 names. */
  function MentionsField(list: Option<seq<bytes>>): bytes {
    if list.None? || list.value == [] then []
    else
      var n := if |list.value| < 255 then |list.value| else 255;
      [n] + Join(ShortFields(list.value[..n]))
  }

  function ShortFields(list: seq<bytes>): (fields: seq<bytes>)
    ensures |fields| == |list|
  {
    if list == [] then [] else ShortFields(list[..|list| - 1]) + [ShortField(list[|list| - 1])]
  }

  lemma {:induction false} ShortsExactly(list: seq<bytes>)
    ensures Shorts(list) == Join(ShortFields(list))
  {
    if list != [] {
      var n := |list| - 1;
      ShortsExactly(list[..n]);
      JoinSnoc(ShortFields(list[..n]), ShortField(list[n]));
    }
  }

  lemma MentionsExactly(list: Option<seq<bytes>>)
    ensures Mentions(list) == MentionsField(list)
  {
    if Given(list) {
      var n := if |list.value| < 255 then |list.value| else 255;
      ShortsExactly(list.value[..n]);
      assert Clip(list.value, 255) == list.value[..n];
    }
  }

  /** The ciphertext of an encrypted message, if there is any; otherwise the text. */
  function MessageContent(m: Message): bytes {
    if m.isEncrypted && m.encryptedContent.Some? && m.encryptedContent.value != [] then m.encryptedContent.value
    else m.content
  }

  /** Flags, eight bytes of two's complement, id, sender and content; then, as far as they are given, original sender,
      recipient's nickname, sender's peer id, mentions and channel. */
  function MessageSpelled(m: Message, ts: nat): bytes
    requires MessageFlagsByte(m) < 256
  {
    [MessageFlagsByte(m)] + Digits(ts, 8) + ShortField(m.id) + ShortField(m.sender) + LongField(MessageContent(m))
    + OptionField(m.originalSender) + OptionField(m.recipientNickname) + OptionField(m.senderPeerId)
    + MentionsField(m.mentions) + OptionField(m.channel)
  }

  /** A message is its fields; None is returned exactly for a timestamp outside 64 bits. */
  lemma MessageBytes(m: Message)
    ensures MessageFlagsByte(m) < 256
    ensures EncodeMessage(m)
         == if m.timestamp < -0x8000_0000_0000_0000 || m.timestamp >= 0x8000_0000_0000_0000 then None
            else Some(MessageSpelled(m, if m.timestamp < 0 then m.timestamp + 0x1_0000_0000_0000_0000 else m.timestamp))
  {
    if EncodeMessage(m).Some? {
      DigitsExactly(if m.timestamp < 0 then m.timestamp + 2 * INT64_LIMIT else m.timestamp, 8);
      LongExactly(MessageContent(m));
      MentionsExactly(m.mentions);
      OptionsExactly(m);
    }
  }

  lemma OptionsExactly(m: Message)
    ensures Short(m.id) == ShortField(m.id) && Short(m.sender) == ShortField(m.sender)
    ensures Optional(m.originalSender) == OptionField(m.originalSender)
    ensures Optional(m.recipientNickname) == OptionField(m.recipientNickname)
    ensures Optional(m.senderPeerId) == OptionField(m.senderPeerId) && Optional(m.channel) == OptionField(m.channel)
  {
  }

  /** A message that ends after its content has no options, whatever its flags announce. */
  lemma OptionsCutOff(data: bytes)
    requires ReadHead(data).Some? && ReadHead(data).value.1 == []
    ensures
      var head := ReadHead(data).value.0;
      DecodeMessage(data) == Some(Assemble(head, Names(None, None, None), None, None))
  {
  }

  /** A string that is cut off costs its length byte: what follows is read as the next field. */
  lemma CutOffSkipped(flags: byte, bit: nat, length: byte, d: bytes)
    requires bit > 0 && HasBit(flags, bit) && length > |d|
    ensures ReadOptional(flags, bit, [length] + d) == Some((None, d))
  {
    assert ([length] + d)[1..] == d;
  }

  // ----- Private payloads -----

  /** A text: 1, the id's length in two bytes, the id, 1, one byte of length, and the content. */
  lemma TextBytes(content: bytes, id: bytes)
    ensures EncodeText(content, id).Some? <==> |content| <= 255 && |id| <= 65_535
    ensures EncodeText(content, id).Some? ==>
              EncodeText(content, id).value == [1] + Digits(|id|, 2) + id + [1, |content|] + content
  {
    DigitsExactly(|id|, 2);
  }

  /** A file: 0, the id's length in two bytes, the id, 2, and the data. */
  lemma FileBytes(data: bytes, id: bytes)
    ensures EncodeFile(data, id).Some? <==> |id| <= 65_535
    ensures EncodeFile(data, id).Some? ==> EncodeFile(data, id).value == [0] + Digits(|id|, 2) + id + [2] + data
  {
    DigitsExactly(|id|, 2);
  }

  /** The bytes that a length byte announces, or as many as there are. */
  function Announced(rest: bytes): bytes
    requires rest != []
  {
    if rest[0] < |rest| then rest[1..rest[0] + 1] else rest[1..]
  }

  /** How any framed payload is read, whoever wrote it: as a receipt if it begins like one and has hyphens where a
      receipt's id has them; else as a file for every type but 1; else as a text if what its length byte announces is
      one. The length of a content that is cut off does not matter. */
  lemma FramedReadExactly(guess: bytes -> Parsed, flags: byte, id: bytes, kind: byte, rest: bytes)
    requires |id| == 36 && IsAscii(id) && rest != []
    ensures
      var d := [flags, 0, 36] + id + [kind] + rest;
      ParseIncoming(guess, d)
      == if flags in {2, 3} && id[6] == 45 && id[11] == 45 then PrivatePayloads.Receipt([0, 36] + id[..34])
         else if kind != 1 then PrivatePayloads.File(id, rest)
         else if IsText(Announced(rest)) then PrivatePayloads.Text(id, Announced(rest))
         else guess(d)
  {
    var d := [flags, 0, 36] + id + [kind] + rest;
    FramedFields(flags, id, kind, rest);
    assert FromBigEndian([0, 36]) == 36 by {
      assert [0, 36][..1] == [0] && [0][..0] == [];
    }
    assert forall b :: b in id[..34] ==> b in id;
    assert IsAscii([0, 36] + id[..34]);
  }

  lemma FramedFields(flags: byte, id: bytes, kind: byte, rest: bytes)
    requires |id| == 36
    ensures
      var d := [flags, 0, 36] + id + [kind] + rest;
      && d[0] == flags && d[1..3] == [0, 36] && d[3..39] == id && d[39] == kind && d[40..] == rest
      && d[9] == id[6] && d[14] == id[11] && d[1..37] == [0, 36] + id[..34]
  {
  }

  /** What begins with 2 or 3 and 36 ASCII bytes with the two hyphens is a receipt for them, whatever follows. */
  lemma ReceiptReadExactly(guess: bytes -> Parsed, kind: byte, id: bytes, rest: bytes)
    requires |id| == 36 && IsAscii(id) && kind in {2, 3} && id[8] == 45 && id[13] == 45
    ensures ParseIncoming(guess, [kind] + id + rest) == PrivatePayloads.Receipt(id)
  {
    assert ([kind] + id + rest)[1..37] == id;
  }
}
