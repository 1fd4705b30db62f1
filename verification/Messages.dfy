/** The private message format of messages/message.py. A string is the UTF-8 byte string that encodes it. */
module Messages {
  import opened Bytes
  import opened Seqs
  import opened Utf8

  const IS_RELAY := 0x01
  const IS_PRIVATE := 0x02
  const HAS_ORIGINAL_SENDER := 0x04
  const HAS_RECIPIENT_NICK := 0x08
  const HAS_SENDER_PEER_ID := 0x10
  const HAS_MENTIONS := 0x20
  const HAS_CHANNEL := 0x40
  const IS_ENCRYPTED := 0x80

  const MIN_MESSAGE_SIZE := 13
  const INT64_LIMIT: int := 0x8000_0000_0000_0000

  datatype Message = Message(
    id: bytes, sender: bytes, content: bytes, timestamp: int, isRelay: bool, isPrivate: bool,
    originalSender: Option<bytes>, recipientNickname: Option<bytes>, senderPeerId: Option<bytes>,
    mentions: Option<seq<bytes>>, channel: Option<bytes>, encryptedContent: Option<bytes>, isEncrypted: bool)

  predicate IsOptionalText(s: Option<bytes>) {
    s.Some? ==> IsText(s.value)
  }

  /** Every string of the message is a string. */
  predicate HasText(m: Message) {
    && IsText(m.id) && IsText(m.sender) && IsText(m.content)
    && IsOptionalText(m.originalSender) && IsOptionalText(m.recipientNickname) && IsOptionalText(m.senderPeerId)
    && (m.mentions.Some? ==> forall s :: s in m.mentions.value ==> IsText(s))
    && IsOptionalText(m.channel)
  }

  // ----- Encoding -----

  /** Python's s[:limit]. */
  function Clip<T>(s: seq<T>, limit: nat): (r: seq<T>)
    ensures |r| <= limit
    ensures |s| <= limit ==> r == s
    ensures r <= s
  {
    if |s| > limit then s[..limit] else s
  }

  /** A present, non-empty field: what Python's truth test asks of an optional string or list. */
  predicate Given<T>(s: Option<seq<T>>) {
    s.Some? && s.value != []
  }

  function MessageFlags(m: Message): (f: nat)
    ensures f < 256
  {
    (if m.isRelay then IS_RELAY else 0)
    + (if m.isPrivate then IS_PRIVATE else 0)
    + (if Given(m.originalSender) then HAS_ORIGINAL_SENDER else 0)
    + (if Given(m.recipientNickname) then HAS_RECIPIENT_NICK else 0)
    + (if Given(m.senderPeerId) then HAS_SENDER_PEER_ID else 0)
    + (if Given(m.mentions) then HAS_MENTIONS else 0)
    + (if Given(m.channel) then HAS_CHANNEL else 0)
    + (if m.isEncrypted then IS_ENCRYPTED else 0)
  }

  /** struct.pack(">q"): two's complement. */
  function SignedBytes(n: int): bytes
    requires -INT64_LIMIT <= n < INT64_LIMIT
  {
    BigEndian(if n < 0 then n + 2 * INT64_LIMIT else n, 8)
  }

  function FromSignedBytes(s: bytes): int {
    var n := FromBigEndian(s);
    if n < INT64_LIMIT then n else n - 2 * INT64_LIMIT
  }

  lemma SignedRoundTrip(n: int)
    requires -INT64_LIMIT <= n < INT64_LIMIT
    ensures FromSignedBytes(SignedBytes(n)) == n
  {
    FieldSizes();
    BigEndianRoundTrip(if n < 0 then n + 2 * INT64_LIMIT else n, 8);
  }

  function Short(s: bytes): bytes {
    [|Clip(s, 255)|] + Clip(s, 255)
  }

  function Long(s: bytes): bytes {
    BigEndian(|Clip(s, 65535)|, 2) + Clip(s, 65535)
  }

  function Optional(s: Option<bytes>): bytes {
    if Given(s) then Short(s.value) else []
  }

  function Shorts(list: seq<bytes>): bytes {
    if list == [] then [] else Shorts(list[..|list| - 1]) + Short(list[|list| - 1])
  }

  function Mentions(list: Option<seq<bytes>>): bytes {
    if Given(list) then [|Clip(list.value, 255)|] + Shorts(Clip(list.value, 255)) else []
  }

  /** The bytes of the content field: the ciphertext of an encrypted message if it has one. */
  function Content(m: Message): bytes {
    if m.isEncrypted && Given(m.encryptedContent) then m.encryptedContent.value else m.content
  }

  /** encode_message: None when the timestamp does not fit its field. */
  function EncodeMessage(m: Message): Option<bytes> {
    if !(-INT64_LIMIT <= m.timestamp < INT64_LIMIT) then None
    else
      Some([MessageFlags(m)] + SignedBytes(m.timestamp) + Short(m.id) + Short(m.sender) + Long(Content(m))
           + Optional(m.originalSender) + Optional(m.recipientNickname) + Optional(m.senderPeerId)
           + Mentions(m.mentions) + Optional(m.channel))
  }

  method WriteMentions(list: seq<bytes>) returns (buf: bytes)
    requires list != []
    ensures buf == Mentions(Some(list))
  {
    var entries := Clip(list, 255);
    buf := [|entries|];
    for i := 0 to |entries|
      invariant buf == [|entries|] + Shorts(entries[..i])
    {
      buf := buf + Short(entries[i]);
      assert entries[..i + 1][..i] == entries[..i];
    }
    assert entries[..|entries|] == entries;
  }

  method WriteFlags(m: Message) returns (flags: nat)
    ensures flags == MessageFlags(m)
  {
    flags := 0;
    if m.isRelay { flags := flags + IS_RELAY; }
    if m.isPrivate { flags := flags + IS_PRIVATE; }
    if Given(m.originalSender) { flags := flags + HAS_ORIGINAL_SENDER; }
    if Given(m.recipientNickname) { flags := flags + HAS_RECIPIENT_NICK; }
    if Given(m.senderPeerId) { flags := flags + HAS_SENDER_PEER_ID; }
    if Given(m.mentions) { flags := flags + HAS_MENTIONS; }
    if Given(m.channel) { flags := flags + HAS_CHANNEL; }
    if m.isEncrypted { flags := flags + IS_ENCRYPTED; }
  }

  method WriteOptional(buf: bytes, s: Option<bytes>) returns (r: bytes)
    ensures r == buf + Optional(s)
  {
    r := buf;
    AppendNothing(buf);
    if s.Some? && s.value != [] {
      r := r + Short(s.value);
    }
  }

  method WriteMessage(m: Message) returns (r: Option<bytes>)
    ensures r == EncodeMessage(m)
  {
    var flags := WriteFlags(m);
    if !(-INT64_LIMIT <= m.timestamp < INT64_LIMIT) {
      return None;
    }
    var buf: bytes := [flags] + SignedBytes(m.timestamp);
    buf := buf + Short(m.id);
    buf := buf + Short(m.sender);
    if m.isEncrypted && Given(m.encryptedContent) {
      buf := buf + Long(m.encryptedContent.value);
    } else {
      buf := buf + Long(m.content);
    }
    buf := WriteOptional(buf, m.originalSender);
    buf := WriteOptional(buf, m.recipientNickname);
    buf := WriteOptional(buf, m.senderPeerId);
    AppendNothing(buf);
    if Given(m.mentions) {
      var mentions := WriteMentions(m.mentions.value);
      buf := buf + mentions;
    }
    buf := WriteOptional(buf, m.channel);
    r := Some(buf);
  }

  // ----- Decoding -----

  /** _read_u8_str: the text and what follows it; a string that is cut off loses its length byte only. */
  datatype Read = Text(text: bytes, rest: bytes) | Missing(rest: bytes) | NotText

  function ReadShort(d: bytes): Read {
    if d == [] then Missing(d)
    else if 1 + d[0] > |d| then Missing(d[1..])
    else if !IsText(d[1..1 + d[0]]) then NotText
    else Text(d[1..1 + d[0]], d[1 + d[0]..])
  }

  /** A field that is read only when flagged and when bytes are left. */
  function ReadOptional(flags: byte, bit: nat, d: bytes): Option<(Option<bytes>, bytes)>
    requires bit > 0
  {
    if !HasBit(flags, bit) || d == [] then Some((None, d))
    else
      match ReadShort(d)
      case NotText => None
      case Missing(rest) => Some((None, rest))
      case Text(text, rest) => Some((Some(text), rest))
  }

  /** Up to `count` strings; those that are cut off are skipped. */
  function ReadShorts(d: bytes, count: nat): Option<(seq<bytes>, bytes)> {
    if count == 0 || d == [] then Some(([], d))
    else
      match ReadShort(d)
      case NotText => None
      case Missing(rest) => ReadShorts(rest, count - 1)
      case Text(text, rest) =>
        var more :- ReadShorts(rest, count - 1);
        Some(([text] + more.0, more.1))
  }

  function ReadMentions(flags: byte, d: bytes): Option<(Option<seq<bytes>>, bytes)> {
    if !HasBit(flags, HAS_MENTIONS) || d == [] then Some((None, d))
    else
      var (list, rest) :- ReadShorts(d[1..], d[0]);
      Some((if list == [] then None else Some(list), rest))
  }

  datatype Head = Head(flags: byte, timestamp: int, id: bytes, sender: bytes, body: bytes)

  /** The content: text, unless it is flagged as encrypted. */
  function ReadContent(flags: byte, d: bytes): Option<(bytes, bytes)> {
    var (length, rest) :- Cut(d, 2);
    var (body, tail) :- Cut(rest, FromBigEndian(length));
    if !HasBit(flags, IS_ENCRYPTED) && !IsText(body) then None else Some((body, tail))
  }

  function ReadHead(data: bytes): Option<(Head, bytes)> {
    if |data| < MIN_MESSAGE_SIZE then None
    else
      var id := ReadShort(data[9..]);
      if !id.Text? then None
      else
        var sender := ReadShort(id.rest);
        if !sender.Text? then None
        else
          var (body, tail) :- ReadContent(data[0], sender.rest);
          Some((Head(data[0], FromSignedBytes(data[1..9]), id.text, sender.text, body), tail))
  }

  datatype Names = Names(originalSender: Option<bytes>, recipientNickname: Option<bytes>, senderPeerId: Option<bytes>)

  function ReadNames(flags: byte, d: bytes): Option<(Names, bytes)> {
    var (originalSender, d1) :- ReadOptional(flags, HAS_ORIGINAL_SENDER, d);
    var (recipientNickname, d2) :- ReadOptional(flags, HAS_RECIPIENT_NICK, d1);
    var (senderPeerId, d3) :- ReadOptional(flags, HAS_SENDER_PEER_ID, d2);
    Some((Names(originalSender, recipientNickname, senderPeerId), d3))
  }

  function Assemble(h: Head, names: Names, mentions: Option<seq<bytes>>, channel: Option<bytes>): Message {
    var encrypted := HasBit(h.flags, IS_ENCRYPTED);
    Message(h.id, h.sender, if encrypted then [] else h.body, h.timestamp, HasBit(h.flags, IS_RELAY),
            HasBit(h.flags, IS_PRIVATE), names.originalSender, names.recipientNickname, names.senderPeerId,
            mentions, channel, if encrypted then Some(h.body) else None, encrypted)
  }

  /** decode_message. */
  function DecodeMessage(data: bytes): Option<Message> {
    var (head, d) :- ReadHead(data);
    var (names, d1) :- ReadNames(head.flags, d);
    var (mentions, d2) :- ReadMentions(head.flags, d1);
    var (channel, _) :- ReadOptional(head.flags, HAS_CHANNEL, d2);
    Some(Assemble(head, names, mentions, channel))
  }

  // ----- The decoder's offsets -----

  datatype At = TextAt(text: bytes) | MissingAt | NotTextAt

  method ReadShortAt(data: bytes, offset: nat) returns (r: At, next: nat)
    requires offset <= |data|
    ensures offset <= next <= |data|
    ensures
      match ReadShort(data[offset..])
      case NotText => r == NotTextAt
      case Missing(rest) => r == MissingAt && rest == data[next..]
      case Text(text, rest) => r == TextAt(text) && rest == data[next..]
  {
    next := offset;
    if next >= |data| {
      return MissingAt, next;
    }
    var length := data[next];
    next := next + 1;
    if next + length > |data| {
      return MissingAt, next;
    }
    var s := data[next..next + length];
    assert data[offset..][1..1 + length] == s;
    if !IsText(s) {
      return NotTextAt, next;
    }
    r := TextAt(s);
    next := next + length;
  }

  method ReadOptionalAt(data: bytes, offset: nat, flags: byte, bit: nat)
    returns (ok: bool, s: Option<bytes>, next: nat)
    requires bit > 0 && offset <= |data|
    ensures offset <= next <= |data|
    ensures ReadOptional(flags, bit, data[offset..]) == if ok then Some((s, data[next..])) else None
  {
    ok, s, next := true, None, offset;
    if HasBit(flags, bit) && offset < |data| {
      var r;
      r, next := ReadShortAt(data, offset);
      match r
      case TextAt(text) => s := Some(text);
      case MissingAt => s := None;
      case NotTextAt => ok := false;
    }
  }

  /** Putting `list` before what is still to be read. */
  function Before(list: seq<bytes>, r: Option<(seq<bytes>, bytes)>): Option<(seq<bytes>, bytes)> {
    if r.None? then None else Some((list + r.value.0, r.value.1))
  }

  method ReadMentionsAt(data: bytes, offset: nat, flags: byte)
    returns (ok: bool, mentions: Option<seq<bytes>>, next: nat)
    requires offset <= |data|
    ensures offset <= next <= |data|
    ensures ReadMentions(flags, data[offset..]) == if ok then Some((mentions, data[next..])) else None
  {
    ok, mentions, next := true, None, offset;
    if HasBit(flags, HAS_MENTIONS) && offset < |data| {
      var count := data[offset];
      next := offset + 1;
      var list: seq<bytes> := [];
      var i := 0;
      assert data[offset..][1..] == data[next..];
      BeforeNothing(ReadShorts(data[next..], count));
      while i < count
        invariant 0 <= i <= count && offset < next <= |data|
        invariant ReadShorts(data[offset..][1..], count) == Before(list, ReadShorts(data[next..], count - i))
      {
        if next >= |data| {
          break;
        }
        var r;
        r, next := ReadShortAt(data, next);
        match r {
          case TextAt(text) =>
            BeforeSnoc(list, text, ReadShorts(data[next..], count - i - 1));
            list := list + [text];
          case MissingAt =>
          case NotTextAt =>
            return false, None, next;
        }
        i := i + 1;
      }
      AppendNothing(list);
      mentions := if list == [] then None else Some(list);
    }
  }

  lemma BeforeNothing(r: Option<(seq<bytes>, bytes)>)
    ensures Before([], r) == r
  {
    if r.Some? {
      AppendNothing(r.value.0);
    }
  }

  lemma BeforeSnoc(list: seq<bytes>, text: bytes, r: Option<(seq<bytes>, bytes)>)
    ensures Before(list, Before([text], r)) == Before(list + [text], r)
  {
    if r.Some? {
      Associative(list, [text], r.value.0);
    }
  }

  method ReadContentAt(data: bytes, offset: nat, flags: byte) returns (ok: bool, body: bytes, next: nat)
    requires offset <= |data|
    ensures offset <= next <= |data|
    ensures ReadContent(flags, data[offset..]) == if ok then Some((body, data[next..])) else None
  {
    ok, body, next := false, [], offset;
    CutAt(data, offset, 2);
    if next + 2 > |data| {
      return;
    }
    var contentLen := FromBigEndian(data[next..next + 2]);
    next := next + 2;
    CutAt(data, next, contentLen);
    if next + contentLen > |data| {
      return;
    }
    body := data[next..next + contentLen];
    if !HasBit(flags, IS_ENCRYPTED) && !IsText(body) {
      return;
    }
    ok, next := true, next + contentLen;
  }

  method ReadHeadAt(data: bytes) returns (ok: bool, head: Head, offset: nat)
    ensures offset <= |data|
    ensures ReadHead(data) == if ok then Some((head, data[offset..])) else None
  {
    ok, head, offset := false, Head(0, 0, [], [], []), 0;
    if |data| < MIN_MESSAGE_SIZE {
      return;
    }
    var flags := data[0];
    var timestamp := FromSignedBytes(data[1..9]);
    var id, sender;
    id, offset := ReadShortAt(data, 9);
    if !id.TextAt? {
      return;
    }
    sender, offset := ReadShortAt(data, offset);
    if !sender.TextAt? {
      return;
    }
    var body;
    ok, body, offset := ReadContentAt(data, offset, flags);
    if !ok {
      return;
    }
    head := Head(flags, timestamp, id.text, sender.text, body);
  }

  method ReadMessage(data: bytes) returns (r: Option<Message>)
    ensures r == DecodeMessage(data)
  {
    var ok, head, offset := ReadHeadAt(data);
    if !ok {
      return None;
    }
    var originalSender, recipientNickname, senderPeerId, mentions, channel;
    ok, originalSender, offset := ReadOptionalAt(data, offset, head.flags, HAS_ORIGINAL_SENDER);
    if !ok {
      return None;
    }
    ok, recipientNickname, offset := ReadOptionalAt(data, offset, head.flags, HAS_RECIPIENT_NICK);
    if !ok {
      return None;
    }
    ok, senderPeerId, offset := ReadOptionalAt(data, offset, head.flags, HAS_SENDER_PEER_ID);
    if !ok {
      return None;
    }
    ok, mentions, offset := ReadMentionsAt(data, offset, head.flags);
    if !ok {
      return None;
    }
    ok, channel, offset := ReadOptionalAt(data, offset, head.flags, HAS_CHANNEL);
    if !ok {
      return None;
    }
    r := Some(Assemble(head, Names(originalSender, recipientNickname, senderPeerId), mentions, channel));
  }
}
