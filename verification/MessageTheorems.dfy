/** What decoding an encoded message gives back. */
module MessageTheorems {
  import opened Bytes
  import opened Seqs
  import opened Utf8
  import opened Messages

  // ----- One field -----

  lemma ShortWritten(s: bytes, rest: bytes)
    ensures ReadShort(Short(s) + rest) == if IsText(Clip(s, 255)) then Text(Clip(s, 255), rest) else NotText
  {
    var d := Short(s) + rest;
    var n := |Clip(s, 255)|;
    assert d[0] == n && d[1..1 + n] == Clip(s, 255) && d[1 + n..] == rest;
  }

  /** What is read back of an optional string: an empty one is not written. */
  function ClipGiven(s: Option<bytes>): Option<bytes> {
    if Given(s) then Some(Clip(s.value, 255)) else None
  }

  predicate OptionalReadsBack(s: Option<bytes>) {
    Given(s) ==> IsText(Clip(s.value, 255))
  }

  lemma OptionalWritten(s: Option<bytes>, flags: byte, bit: nat, rest: bytes)
    requires bit > 0 && HasBit(flags, bit) == Given(s)
    ensures ReadOptional(flags, bit, Optional(s) + rest)
         == if OptionalReadsBack(s) then Some((ClipGiven(s), rest)) else None
  {
    if Given(s) {
      ShortWritten(s.value, rest);
    } else {
      assert Optional(s) + rest == rest;
    }
  }

  // ----- Mentions -----

  lemma {:induction false} ShortsFront(list: seq<bytes>)
    requires list != []
    ensures Shorts(list) == Short(list[0]) + Shorts(list[1..])
  {
    var n := |list| - 1;
    if n == 0 {
      AppendNothing(Short(list[0]));
    } else {
      ShortsFront(list[..n]);
      assert list[1..][..n - 1] == list[..n][1..];
      Associative(Short(list[0]), Shorts(list[..n][1..]), Short(list[n]));
    }
  }

  function ClipAll(list: seq<bytes>): seq<bytes> {
    seq(|list|, i requires 0 <= i < |list| => Clip(list[i], 255))
  }

  predicate AllReadBack(list: seq<bytes>) {
    forall i :: 0 <= i < |list| ==> IsText(Clip(list[i], 255))
  }

  /** Reading one more string off the front. */
  lemma {:induction false} ReadShortsNext(s: bytes, d: bytes, count: nat)
    requires count > 0
    ensures
      var more := ReadShorts(d, count - 1);
      ReadShorts(Short(s) + d, count)
      == if !IsText(Clip(s, 255)) || more.None? then None
         else Some(([Clip(s, 255)] + more.value.0, more.value.1))
  {
    ShortWritten(s, d);
  }

  lemma ClipAllFront(list: seq<bytes>)
    requires list != []
    ensures ClipAll(list) == [Clip(list[0], 255)] + ClipAll(list[1..])
  {
  }

  lemma {:induction false} ShortsWritten(list: seq<bytes>, rest: bytes)
    ensures ReadShorts(Shorts(list) + rest, |list|) == if AllReadBack(list) then Some((ClipAll(list), rest)) else None
  {
    if list == [] {
      AppendNothing(rest);
      assert ClipAll(list) == [];
    } else {
      ShortsFront(list);
      Associative(Short(list[0]), Shorts(list[1..]), rest);
      ShortsWritten(list[1..], rest);
      ReadShortsNext(list[0], Shorts(list[1..]) + rest, |list|);
      AllReadBackFront(list);
      ClipAllFront(list);
    }
  }

  lemma AllReadBackFront(list: seq<bytes>)
    requires list != []
    ensures AllReadBack(list) <==> IsText(Clip(list[0], 255)) && AllReadBack(list[1..])
  {
    if IsText(Clip(list[0], 255)) && AllReadBack(list[1..]) {
      forall i | 0 <= i < |list|
        ensures IsText(Clip(list[i], 255))
      {
        assert i > 0 ==> list[i] == list[1..][i - 1];
      }
    }
  }

  function ClipMentions(list: Option<seq<bytes>>): Option<seq<bytes>> {
    if Given(list) then Some(ClipAll(Clip(list.value, 255))) else None
  }

  predicate MentionsReadBack(list: Option<seq<bytes>>) {
    Given(list) ==> AllReadBack(Clip(list.value, 255))
  }

  lemma Counted(n: byte, list: bytes, rest: bytes)
    ensures ([n] + list + rest)[0] == n && ([n] + list + rest)[1..] == list + rest
  {
  }

  lemma MentionsWritten(list: Option<seq<bytes>>, flags: byte, rest: bytes)
    requires HasBit(flags, HAS_MENTIONS) == Given(list)
    ensures ReadMentions(flags, Mentions(list) + rest)
         == if MentionsReadBack(list) then Some((ClipMentions(list), rest)) else None
  {
    if Given(list) {
      var entries := Clip(list.value, 255);
      ShortsWritten(entries, rest);
      Counted(|entries|, Shorts(entries), rest);
    } else {
      assert Mentions(list) + rest == rest;
    }
  }

  // ----- The head -----

  function Bit(b: bool): nat {
    if b then 1 else 0
  }

  lemma FourBits(f: nat, b0: nat, b1: nat, b2: nat, b3: nat, high: nat)
    requires b0 <= 1 && b1 <= 1 && b2 <= 1 && b3 <= 1
    requires f == b0 + 2 * b1 + 4 * b2 + 8 * b3 + 16 * high
    ensures f % 2 == b0 && f / 2 % 2 == b1 && f / 4 % 2 == b2 && f / 8 % 2 == b3
  {
    Halve(f, b0, b1 + 2 * (b2 + 2 * (b3 + 2 * high)));
    Halve(f / 2, b1, b2 + 2 * (b3 + 2 * high));
    Halve(f / 2 / 2, b2, b3 + 2 * high);
    Halve(f / 2 / 2 / 2, b3, high);
    HalveAgain(f);
  }

  lemma Halve(f: nat, bit: nat, rest: nat)
    requires bit <= 1 && f == bit + 2 * rest
    ensures f % 2 == bit && f / 2 == rest
  {
  }

  lemma HalveAgain(f: nat)
    ensures f / 4 == f / 2 / 2 && f / 8 == f / 2 / 2 / 2
  {
  }

  lemma EightBits(f: nat, b0: nat, b1: nat, b2: nat, b3: nat, b4: nat, b5: nat, b6: nat, b7: nat)
    requires b0 <= 1 && b1 <= 1 && b2 <= 1 && b3 <= 1 && b4 <= 1 && b5 <= 1 && b6 <= 1 && b7 <= 1
    requires f == b0 + 2 * b1 + 4 * b2 + 8 * b3 + 16 * b4 + 32 * b5 + 64 * b6 + 128 * b7
    ensures f % 2 == b0 && f / 2 % 2 == b1 && f / 4 % 2 == b2 && f / 8 % 2 == b3
    ensures f / 16 % 2 == b4 && f / 32 % 2 == b5 && f / 64 % 2 == b6 && f / 128 % 2 == b7
  {
    var high := b4 + 2 * b5 + 4 * b6 + 8 * b7;
    assert f / 16 == high;
    FourBits(f, b0, b1, b2, b3, high);
    FourBits(high, b4, b5, b6, b7, 0);
  }

  lemma FlagBits(m: Message)
    ensures
      var f := MessageFlags(m);
      && HasBit(f, IS_RELAY) == m.isRelay && HasBit(f, IS_PRIVATE) == m.isPrivate
      && HasBit(f, HAS_ORIGINAL_SENDER) == Given(m.originalSender)
      && HasBit(f, HAS_RECIPIENT_NICK) == Given(m.recipientNickname)
      && HasBit(f, HAS_SENDER_PEER_ID) == Given(m.senderPeerId)
      && HasBit(f, HAS_MENTIONS) == Given(m.mentions) && HasBit(f, HAS_CHANNEL) == Given(m.channel)
      && HasBit(f, IS_ENCRYPTED) == m.isEncrypted
  {
    EightBits(MessageFlags(m), Bit(m.isRelay), Bit(m.isPrivate), Bit(Given(m.originalSender)),
              Bit(Given(m.recipientNickname)), Bit(Given(m.senderPeerId)), Bit(Given(m.mentions)),
              Bit(Given(m.channel)), Bit(m.isEncrypted));
  }

  function ClippedContent(m: Message): bytes {
    Clip(Content(m), 65535)
  }

  predicate ContentReadsBack(m: Message) {
    m.isEncrypted || IsText(ClippedContent(m))
  }

  lemma ContentWritten(m: Message, rest: bytes)
    ensures ReadContent(MessageFlags(m), Long(Content(m)) + rest)
         == if ContentReadsBack(m) then Some((ClippedContent(m), rest)) else None
  {
    var c := ClippedContent(m);
    var length := BigEndian(|c|, 2);
    FieldSizes();
    BigEndianRoundTrip(|c|, 2);
    FlagBits(m);
    assert Long(Content(m)) + rest == length + (c + rest);
    CutAppend(length, c + rest);
    CutAppend(c, rest);
  }

  predicate HeadReadsBack(m: Message) {
    IsText(Clip(m.id, 255)) && IsText(Clip(m.sender, 255)) && ContentReadsBack(m)
  }

  function HeadOf(m: Message): Head {
    Head(MessageFlags(m), m.timestamp, Clip(m.id, 255), Clip(m.sender, 255), ClippedContent(m))
  }

  lemma HeadWritten(m: Message, rest: bytes)
    requires -INT64_LIMIT <= m.timestamp < INT64_LIMIT
    ensures
      var d := [MessageFlags(m)] + SignedBytes(m.timestamp)
               + (Short(m.id) + (Short(m.sender) + (Long(Content(m)) + rest)));
      ReadHead(d) == if HeadReadsBack(m) then Some((HeadOf(m), rest)) else None
  {
    var d3 := Long(Content(m)) + rest;
    var d2 := Short(m.sender) + d3;
    var d1 := Short(m.id) + d2;
    var d := [MessageFlags(m)] + SignedBytes(m.timestamp) + d1;
    assert d[0] == MessageFlags(m) && d[1..9] == SignedBytes(m.timestamp) && d[9..] == d1;
    SignedRoundTrip(m.timestamp);
    ShortWritten(m.id, d2);
    ShortWritten(m.sender, d3);
    ContentWritten(m, rest);
  }

  // ----- The whole message -----

  predicate NamesReadBack(m: Message) {
    && OptionalReadsBack(m.originalSender) && OptionalReadsBack(m.recipientNickname)
    && OptionalReadsBack(m.senderPeerId)
  }

  function NamesOf(m: Message): Names {
    Names(ClipGiven(m.originalSender), ClipGiven(m.recipientNickname), ClipGiven(m.senderPeerId))
  }

  lemma NamesWritten(m: Message, rest: bytes)
    ensures
      var d := Optional(m.originalSender) + (Optional(m.recipientNickname) + (Optional(m.senderPeerId) + rest));
      ReadNames(MessageFlags(m), d) == if NamesReadBack(m) then Some((NamesOf(m), rest)) else None
  {
    var flags := MessageFlags(m);
    FlagBits(m);
    var d2 := Optional(m.senderPeerId) + rest;
    var d1 := Optional(m.recipientNickname) + d2;
    OptionalWritten(m.originalSender, flags, HAS_ORIGINAL_SENDER, d1);
    OptionalWritten(m.recipientNickname, flags, HAS_RECIPIENT_NICK, d2);
    OptionalWritten(m.senderPeerId, flags, HAS_SENDER_PEER_ID, rest);
  }

  /** Does cutting the long strings of `m` leave every character whole? */
  predicate ReadsBack(m: Message) {
    && HeadReadsBack(m) && NamesReadBack(m) && MentionsReadBack(m.mentions) && OptionalReadsBack(m.channel)
  }

  /** `m` as a receiver sees it: long strings cut, empty options gone, one kind of content. */
  function AsRead(m: Message): Message {
    Message(Clip(m.id, 255), Clip(m.sender, 255), if m.isEncrypted then [] else ClippedContent(m), m.timestamp,
            m.isRelay, m.isPrivate, ClipGiven(m.originalSender), ClipGiven(m.recipientNickname),
            ClipGiven(m.senderPeerId), ClipMentions(m.mentions), ClipGiven(m.channel),
            if m.isEncrypted then Some(ClippedContent(m)) else None, m.isEncrypted)
  }

  lemma Regroup(a: bytes, b: bytes, c: bytes, d: bytes, e: bytes, f: bytes, g: bytes, h: bytes, i: bytes, j: bytes,
                tail: bytes)
    ensures a + b + c + d + e + f + g + h + i + j + tail
         == a + b + (c + (d + (e + (f + (g + (h + (i + (j + tail))))))))
  {
    assert g + (h + (i + (j + tail))) == g + h + i + j + tail;
    assert d + (e + (f + (g + h + i + j + tail))) == d + e + f + g + h + i + j + tail;
  }

  lemma Written(m: Message, tail: bytes)
    requires EncodeMessage(m).Some?
    ensures
      var rest := Optional(m.channel) + tail;
      var names := Optional(m.originalSender)
                   + (Optional(m.recipientNickname) + (Optional(m.senderPeerId) + (Mentions(m.mentions) + rest)));
      EncodeMessage(m).value + tail
      == [MessageFlags(m)] + SignedBytes(m.timestamp)
         + (Short(m.id) + (Short(m.sender) + (Long(Content(m)) + names)))
  {
    Regroup([MessageFlags(m)], SignedBytes(m.timestamp), Short(m.id), Short(m.sender), Long(Content(m)),
            Optional(m.originalSender), Optional(m.recipientNickname), Optional(m.senderPeerId),
            Mentions(m.mentions), Optional(m.channel), tail);
  }

  lemma AssembledAsRead(m: Message)
    ensures Assemble(HeadOf(m), NamesOf(m), ClipMentions(m.mentions), ClipGiven(m.channel)) == AsRead(m)
  {
    FlagBits(m);
  }

  /** Decoding an encoded message, whatever bytes follow it, gives the message as cut to the field limits;
      it fails exactly when a cut splits a character. */
  lemma DecodeEncodeMessage(m: Message, tail: bytes)
    requires EncodeMessage(m).Some?
    ensures DecodeMessage(EncodeMessage(m).value + tail) == if ReadsBack(m) then Some(AsRead(m)) else None
  {
    var rest := Optional(m.channel) + tail;
    var mentions := Mentions(m.mentions) + rest;
    var names := Optional(m.originalSender) + (Optional(m.recipientNickname) + (Optional(m.senderPeerId) + mentions));
    Written(m, tail);
    HeadWritten(m, names);
    NamesWritten(m, mentions);
    EndWritten(m, tail);
    AssembledAsRead(m);
  }

  lemma EndWritten(m: Message, tail: bytes)
    ensures
      var rest := Optional(m.channel) + tail;
      && ReadMentions(MessageFlags(m), Mentions(m.mentions) + rest)
         == (if MentionsReadBack(m.mentions) then Some((ClipMentions(m.mentions), rest)) else None)
      && ReadOptional(MessageFlags(m), HAS_CHANNEL, rest)
         == (if OptionalReadsBack(m.channel) then Some((ClipGiven(m.channel), tail)) else None)
  {
    FlagBits(m);
    MentionsWritten(m.mentions, MessageFlags(m), Optional(m.channel) + tail);
    OptionalWritten(m.channel, MessageFlags(m), HAS_CHANNEL, tail);
  }

  // ----- Which messages survive -----

  predicate FieldFits(s: Option<bytes>) {
    s.Some? ==> 1 <= |s.value| <= 255
  }

  /** The field limits: what a sender can check before encoding. */
  predicate WithinLimits(m: Message) {
    && |m.id| <= 255 && |m.sender| <= 255
    && FieldFits(m.originalSender) && FieldFits(m.recipientNickname) && FieldFits(m.senderPeerId)
    && FieldFits(m.channel)
    && (m.mentions.Some? ==>
          1 <= |m.mentions.value| <= 255 && forall i :: 0 <= i < |m.mentions.value| ==> |m.mentions.value[i]| <= 255)
    && (if m.isEncrypted then m.content == [] && m.encryptedContent.Some? && |m.encryptedContent.value| <= 65535
        else m.encryptedContent.None? && |m.content| <= 65535)
  }

  lemma ClipGivenExactly(s: Option<bytes>)
    ensures ClipGiven(s) == s <==> FieldFits(s)
  {
  }

  lemma ClipMentionsExactly(list: Option<seq<bytes>>)
    ensures ClipMentions(list) == list <==>
            (list.Some? ==> 1 <= |list.value| <= 255 && forall i :: 0 <= i < |list.value| ==> |list.value[i]| <= 255)
  {
    if list.Some? && ClipMentions(list) == list {
      forall i | 0 <= i < |list.value|
        ensures |list.value[i]| <= 255
      {
        assert list.value[i] == ClipAll(Clip(list.value, 255))[i];
      }
    }
    if list.Some? && 1 <= |list.value| <= 255 && forall i :: 0 <= i < |list.value| ==> |list.value[i]| <= 255 {
      assert ClipAll(list.value) == list.value;
    }
  }

  lemma AsReadExactly(m: Message)
    ensures AsRead(m) == m <==> WithinLimits(m)
  {
    ClipGivenExactly(m.originalSender);
    ClipGivenExactly(m.recipientNickname);
    ClipGivenExactly(m.senderPeerId);
    ClipGivenExactly(m.channel);
    ClipMentionsExactly(m.mentions);
  }

  lemma WithinLimitsReadsBack(m: Message)
    requires HasText(m) && WithinLimits(m)
    ensures ReadsBack(m)
  {
    if m.mentions.Some? {
      forall i | 0 <= i < |m.mentions.value|
        ensures IsText(Clip(m.mentions.value[i], 255))
      {
        assert m.mentions.value[i] in m.mentions.value;
      }
    }
  }

  /** A message comes back unchanged if and only if it is within the field limits, for every combination of its
      optional fields and whatever bytes follow it. */
  lemma MessageRoundTrip(m: Message, tail: bytes)
    requires HasText(m) && EncodeMessage(m).Some?
    ensures DecodeMessage(EncodeMessage(m).value + tail) == Some(m) <==> WithinLimits(m)
  {
    DecodeEncodeMessage(m, tail);
    AsReadExactly(m);
    if WithinLimits(m) {
      WithinLimitsReadsBack(m);
    }
  }

  // ----- Whatever is decoded is text -----

  lemma {:induction false} ReadShortsText(d: bytes, count: nat)
    requires ReadShorts(d, count).Some?
    ensures forall s :: s in ReadShorts(d, count).value.0 ==> IsText(s)
  {
    if count > 0 && d != [] {
      match ReadShort(d)
      case NotText =>
      case Missing(rest) => ReadShortsText(rest, count - 1);
      case Text(_, rest) => ReadShortsText(rest, count - 1);
    }
  }

  lemma ReadMentionsText(flags: byte, d: bytes)
    requires ReadMentions(flags, d).Some?
    ensures
      var list := ReadMentions(flags, d).value.0;
      list.Some? ==> list.value != [] && forall s :: s in list.value ==> IsText(s)
  {
    if HasBit(flags, HAS_MENTIONS) && d != [] {
      ReadShortsText(d[1..], d[0]);
    }
  }

  lemma ReadHeadText(data: bytes)
    requires ReadHead(data).Some?
    ensures
      var head := ReadHead(data).value.0;
      IsText(head.id) && IsText(head.sender) && (!HasBit(head.flags, IS_ENCRYPTED) ==> IsText(head.body))
  {
  }

  lemma ReadNamesText(flags: byte, d: bytes)
    requires ReadNames(flags, d).Some?
    ensures
      var names := ReadNames(flags, d).value.0;
      && IsOptionalText(names.originalSender) && IsOptionalText(names.recipientNickname)
      && IsOptionalText(names.senderPeerId)
  {
  }

  lemma AssembledText(h: Head, names: Names, mentions: Option<seq<bytes>>, channel: Option<bytes>)
    requires IsText(h.id) && IsText(h.sender) && (!HasBit(h.flags, IS_ENCRYPTED) ==> IsText(h.body))
    requires IsOptionalText(names.originalSender) && IsOptionalText(names.recipientNickname)
    requires IsOptionalText(names.senderPeerId) && IsOptionalText(channel)
    requires mentions.Some? ==> forall s :: s in mentions.value ==> IsText(s)
    ensures HasText(Assemble(h, names, mentions, channel))
  {
  }

  /** Whatever bytes arrive, the strings of a decoded message are text. */
  lemma DecodedHasText(data: bytes)
    requires DecodeMessage(data).Some?
    ensures HasText(DecodeMessage(data).value)
  {
    var (head, d) := ReadHead(data).value;
    var (names, d1) := ReadNames(head.flags, d).value;
    var (mentions, d2) := ReadMentions(head.flags, d1).value;
    var (channel, _) := ReadOptional(head.flags, HAS_CHANNEL, d2).value;
    ReadHeadText(data);
    ReadNamesText(head.flags, d);
    ReadMentionsText(head.flags, d1);
    AssembledText(head, names, mentions, channel);
  }
}
