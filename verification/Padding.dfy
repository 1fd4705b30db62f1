/** PKCS#7-style padding to a few block sizes (protocol/codec.py, section 6.3 of RFC 5652). */
module Padding {
  import opened Bytes

  const PADDING_BLOCK_SIZES: seq<nat> := [256, 512, 1024, 2048]

  /** The block that `n` bytes are padded to: the next one at most 255 bytes away. */
  function BlockFor(n: nat, blocks: seq<nat>): Option<nat>
  {
    if blocks == [] then None
    else if n == blocks[0] then None
    else if n < blocks[0] && blocks[0] - n <= 255 then Some(blocks[0])
    else BlockFor(n, blocks[1..])
  }

  lemma {:induction false} BlockForBounds(n: nat, blocks: seq<nat>)
    ensures BlockFor(n, blocks).Some? ==> n < BlockFor(n, blocks).value <= n + 255
  {
    if blocks != [] {
      BlockForBounds(n, blocks[1..]);
    }
  }

  /** The bytes that padding adds to `n` bytes of data. */
  function Filler(n: nat): bytes {
    match BlockFor(n, PADDING_BLOCK_SIZES)
    case None => []
    case Some(block) =>
      BlockForBounds(n, PADDING_BLOCK_SIZES);
      Repeat(block - n, block - n)
  }

  function Pad(data: bytes): bytes {
    data + Filler(|data|)
  }

  method PadLoop(data: bytes) returns (padded: bytes)
    ensures padded == Pad(data)
  {
    var n := |data|;
    var i := 0;
    while i < |PADDING_BLOCK_SIZES|
      invariant 0 <= i <= |PADDING_BLOCK_SIZES|
      invariant BlockFor(n, PADDING_BLOCK_SIZES) == BlockFor(n, PADDING_BLOCK_SIZES[i..])
    {
      var block := PADDING_BLOCK_SIZES[i];
      assert PADDING_BLOCK_SIZES[i..][0] == block;
      assert PADDING_BLOCK_SIZES[i..][1..] == PADDING_BLOCK_SIZES[i + 1..];
      if n == block {
        return data;
      }
      if n < block {
        var padLen := block - n;
        if padLen <= 255 {
          return data + Repeat(padLen, padLen);
        }
      }
      i := i + 1;
    }
    padded := data;
  }

  /** Does the tail of `data` look like padding, whoever wrote it? */
  predicate ReadsAsPadding(data: bytes)
  {
    data != [] &&
    var padLen := data[|data| - 1];
    1 <= padLen <= |data| && data[|data| - padLen..] == Repeat(padLen, padLen)
  }

  function Unpad(data: bytes): bytes {
    if ReadsAsPadding(data) then data[..|data| - data[|data| - 1]] else data
  }

  /** Padding is added exactly for these sizes; every other size is sent as it is. */
  predicate PadsSize(n: nat)
  {
    1 <= n <= 255 || 257 <= n <= 511 || 769 <= n <= 1023 || 1793 <= n <= 2047
  }

  lemma PadAddsBytes(data: bytes)
    ensures |Pad(data)| > |data| <==> PadsSize(|data|)
    ensures PadsSize(|data|) ==> |Pad(data)| in {256, 512, 1024, 2048}
  {
    var n := |data|;
    assert PADDING_BLOCK_SIZES[1..] == [512, 1024, 2048];
    assert PADDING_BLOCK_SIZES[1..][1..] == [1024, 2048];
    assert PADDING_BLOCK_SIZES[1..][1..][1..] == [2048];
    assert BlockFor(n, [2048]) == if 1793 <= n < 2048 then Some(2048) else None by {
      assert [2048][1..] == [];
    }
    assert BlockFor(n, [1024, 2048]) ==
           if n == 1024 then None else if 769 <= n < 1024 then Some(1024) else BlockFor(n, [2048]) by {
      assert [1024, 2048][1..] == [2048];
    }
    assert BlockFor(n, [512, 1024, 2048]) ==
           if n == 512 then None else if 257 <= n < 512 then Some(512) else BlockFor(n, [1024, 2048]) by {
      assert [512, 1024, 2048][1..] == [1024, 2048];
    }
    BlockForBounds(n, PADDING_BLOCK_SIZES);
  }

  /** Unpadding undoes padding exactly when padding was added or the data does not itself end like padding. */
  lemma UnpadUndoesPad(data: bytes)
    ensures Unpad(Pad(data)) == data <==> PadsSize(|data|) || !ReadsAsPadding(data)
  {
    PadAddsBytes(data);
    if PadsSize(|data|) {
      var padded := Pad(data);
      var padLen := |padded| - |data|;
      assert padded[|padded| - 1] == padLen;
      assert padded[|padded| - padLen..] == Repeat(padLen, padLen);
      assert padded[..|padded| - padLen] == data;
    } else {
      assert Pad(data) == data;
    }
  }

  /** The two padding functions are not inverse on aligned data that ends in 0x01. */
  lemma UnpadCanLoseData()
    ensures var data := Repeat(1, 256); Unpad(Pad(data)) == data[..255] && Unpad(Pad(data)) != data
  {
    var data: bytes := Repeat(1, 256);
    PadAddsBytes(data);
    assert Pad(data) == data;
    assert data[255..] == Repeat(1, 1);
  }
}
