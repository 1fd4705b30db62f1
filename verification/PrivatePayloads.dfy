/** What travels inside a NOISE_ENCRYPTED packet: the writers of mesh/session_manager.py and the first two formats
    that _parse_incoming tries. */
module PrivatePayloads {
  import opened Bytes
  import opened Utf8

  const DELIVERY_RECEIPT: byte := 0x03
  const READ_RECEIPT: byte := 0x02
  const HYPHEN: byte := 0x2D
  const ID_SIZE := 36

  /** What _parse_incoming makes of a plaintext. */
  datatype Parsed = Receipt(ref: bytes) | Text(id: bytes, content: bytes) | File(id: bytes, data: bytes) | Unknown

  /** _encode_message_payload: a content over 255 bytes is a struct error. */
  function EncodeText(content: bytes, id: bytes): Option<bytes> {
    if |content| > 255 || |id| > 65535 then None
    else Some([0x01] + BigEndian(|id|, 2) + id + [1, |content|] + content)
  }

  /** _encode_file_payload. */
  function EncodeFile(data: bytes, id: bytes): Option<bytes> {
    if |id| > 65535 then None else Some([0x00] + BigEndian(|id|, 2) + id + [2] + data)
  }

  function EncodeReceipt(kind: byte, id: bytes): bytes {
    [kind] + id
  }

  predicate IsReceipt(plaintext: bytes) {
    && |plaintext| >= 37 && plaintext[0] in {READ_RECEIPT, DELIVERY_RECEIPT}
    && IsAscii(plaintext[1..37]) && plaintext[9] == HYPHEN && plaintext[14] == HYPHEN
  }

  /** A length byte and that many bytes, or as many as there are. */
  function ContentOf(rest: bytes): bytes
    requires rest != []
  {
    if 1 + rest[0] <= |rest| then rest[1..1 + rest[0]] else rest[1..]
  }

  lemma ContentFirst(content: bytes)
    requires |content| <= 255
    ensures ContentOf([|content|] + content) == content
  {
  }

  /** flags, id length, id, type and the rest; None when the framing does not fit. */
  function ParseFramed(plaintext: bytes): Option<Parsed> {
    if |plaintext| < 41 || FromBigEndian(plaintext[1..3]) != ID_SIZE || !IsAscii(plaintext[3..39]) then None
    else
      var id, rest := plaintext[3..39], plaintext[40..];
      if plaintext[39] != 1 then Some(File(id, rest))
      else
        if IsText(ContentOf(rest)) then Some(Text(id, ContentOf(rest))) else None
  }

  /** _parse_incoming; `guess` stands for the formats that are tried last. */
  function ParseIncoming(guess: bytes -> Parsed, plaintext: bytes): Parsed {
    if IsReceipt(plaintext) then Receipt(plaintext[1..37])
    else if ParseFramed(plaintext).Some? then ParseFramed(plaintext).value
    else guess(plaintext)
  }

  /** A message id as uuid4 writes it. */
  predicate IsUuid(id: bytes) {
    |id| == ID_SIZE && IsAscii(id) && id[8] == HYPHEN && id[13] == HYPHEN
  }

  /** What a peer sends, a peer running the same code understands, whatever the later formats would make of it. */
  lemma {:induction false} TextRoundTrip(guess: bytes -> Parsed, content: bytes, id: bytes)
    requires IsUuid(id) && IsText(content) && 1 <= |content| <= 255
    ensures EncodeText(content, id).Some?
    ensures ParseIncoming(guess, EncodeText(content, id).value) == Text(id, content)
  {
    var rest := [|content|] + content;
    ContentFirst(content);
    FramedText(BigEndian(36, 2), id, rest);
    TextLayout(content, id);
  }

  lemma TextLayout(content: bytes, id: bytes)
    requires |content| <= 255 && |id| == ID_SIZE
    ensures EncodeText(content, id) == Some([0x01] + BigEndian(36, 2) + id + [1] + ([|content|] + content))
  {
    var head := [0x01] + BigEndian(36, 2) + id;
    assert head + [1, |content|] + content == head + [1] + ([|content|] + content);
  }

  lemma FramedText(size: bytes, id: bytes, rest: bytes)
    requires size == BigEndian(36, 2) && IsUuid(id) && rest != [] && IsText(ContentOf(rest))
    ensures
      var d := [0x01] + size + id + [1] + rest;
      !IsReceipt(d) && ParseFramed(d) == Some(Text(id, ContentOf(rest)))
  {
    FieldSizes();
    BigEndianRoundTrip(36, 2);
    FramedLayout(0x01, size, id, 1, rest);
  }

  lemma FramedLayout(flags: byte, size: bytes, id: bytes, kind: byte, rest: bytes)
    requires |size| == 2 && |id| == ID_SIZE
    ensures
      var d := [flags] + size + id + [kind] + rest;
      d[0] == flags && d[1..3] == size && d[3..39] == id && d[39] == kind && d[40..] == rest
  {
  }

  lemma FileRoundTrip(guess: bytes -> Parsed, data: bytes, id: bytes)
    requires IsUuid(id) && data != []
    ensures EncodeFile(data, id).Some?
    ensures ParseIncoming(guess, EncodeFile(data, id).value) == File(id, data)
  {
    FieldSizes();
    BigEndianRoundTrip(36, 2);
    var d := EncodeFile(data, id).value;
    FramedLayout(0x00, BigEndian(36, 2), id, 2, data);
  }

  lemma ReceiptRoundTrip(guess: bytes -> Parsed, kind: byte, id: bytes)
    requires IsUuid(id) && kind in {READ_RECEIPT, DELIVERY_RECEIPT}
    ensures ParseIncoming(guess, EncodeReceipt(kind, id)) == Receipt(id)
  {
    assert EncodeReceipt(kind, id)[1..37] == id;
  }

  /** The id of a text payload, whatever its length; None for receipts, files and anything else. */
  function TextId(plaintext: bytes): Option<bytes> {
    if |plaintext| < 3 || plaintext[0] != 0x01 then None
    else
      var n := FromBigEndian(plaintext[1..3]);
      if 3 + n > |plaintext| then None else Some(plaintext[3..3 + n])
  }

  lemma TextIdOfText(content: bytes, id: bytes)
    requires EncodeText(content, id).Some?
    ensures TextId(EncodeText(content, id).value) == Some(id)
  {
    FieldSizes();
    BigEndianRoundTrip(|id|, 2);
    var d := EncodeText(content, id).value;
    assert d[1..3] == BigEndian(|id|, 2) && d[3..3 + |id|] == id;
  }
}
