/** Byte strings and the big-endian integers that struct.pack writes. */
module Bytes {
  import opened Seqs

  type byte = x: int | 0 <= x < 256
  type bytes = seq<byte>

  /** The number of values that fit in `width` bytes. */
  function Pow256(width: nat): (p: nat)
    ensures p >= 1
  {
    if width == 0 then 1 else 256 * Pow256(width - 1)
  }

  /** `n` in `width` bytes, most significant byte first. */
  function BigEndian(n: nat, width: nat): (s: bytes)
    ensures |s| == width
  {
    if width == 0 then [] else BigEndian(n / 256, width - 1) + [n % 256]
  }

  function FromBigEndian(s: bytes): nat
  {
    if s == [] then 0 else FromBigEndian(s[..|s| - 1]) * 256 + s[|s| - 1]
  }

  lemma {:induction false} BigEndianRoundTrip(n: nat, width: nat)
    requires n < Pow256(width)
    ensures FromBigEndian(BigEndian(n, width)) == n
  {
    if width > 0 {
      BigEndianRoundTrip(n / 256, width - 1);
      assert BigEndian(n, width)[..width - 1] == BigEndian(n / 256, width - 1);
    }
  }

  lemma {:induction false} BigEndianOnto(s: bytes)
    ensures FromBigEndian(s) < Pow256(|s|)
    ensures BigEndian(FromBigEndian(s), |s|) == s
  {
    if s != [] {
      BigEndianOnto(s[..|s| - 1]);
      assert FromBigEndian(s) / 256 == FromBigEndian(s[..|s| - 1]);
      assert s == s[..|s| - 1] + [s[|s| - 1]];
    }
  }

  lemma FieldSizes()
    ensures Pow256(1) == 0x100
    ensures Pow256(2) == 0x1_0000
    ensures Pow256(4) == 0x1_0000_0000
    ensures Pow256(8) == 0x1_0000_0000_0000_0000
  {
    assert Pow256(3) == 0x100_0000;
    assert Pow256(5) == 0x100_0000_0000;
    assert Pow256(6) == 0x1_0000_0000_0000;
    assert Pow256(7) == 0x100_0000_0000_0000;
  }

  /** The byte `b` repeated `n` times. */
  function Repeat(b: byte, n: nat): (s: bytes)
    ensures |s| == n
    ensures forall i :: 0 <= i < n ==> s[i] == b
  {
    seq(n, i => b)
  }

  /** Is the single-bit mask `bit` set in `flags`? */
  predicate HasBit(flags: nat, bit: nat)
    requires bit > 0
  {
    flags / bit % 2 == 1
  }

  /** The concatenation of a list of byte strings, b"".join in the source. */
  function Join(parts: seq<bytes>): bytes
  {
    if parts == [] then [] else parts[0] + Join(parts[1..])
  }

  lemma {:induction false} JoinAppend(a: seq<bytes>, b: seq<bytes>)
    ensures Join(a + b) == Join(a) + Join(b)
  {
    if a == [] {
      AppendNothing(b);
      AppendNothing(Join(b));
    } else {
      JoinAppend(a[1..], b);
      TailOfAppend(a, b);
      Associative(a[0], Join(a[1..]), Join(b));
    }
  }

  lemma {:induction false} JoinSnoc(a: seq<bytes>, x: bytes)
    ensures Join(a + [x]) == Join(a) + x
  {
    JoinAppend(a, [x]);
    assert Join([x]) == x + Join([]);
  }

  /** Splits `n` bytes off the front, or fails when there are fewer. */
  function Cut(d: bytes, n: nat): Option<(bytes, bytes)>
  {
    if |d| < n then None else Some((d[..n], d[n..]))
  }

  lemma CutAppend(a: bytes, b: bytes)
    ensures Cut(a + b, |a|) == Some((a, b))
  {
    assert (a + b)[..|a|] == a;
    assert (a + b)[|a|..] == b;
  }

  lemma CutExtended(d: bytes, n: nat, tail: bytes)
    requires n <= |d|
    ensures Cut(d + tail, n) == Some((d[..n], d[n..] + tail))
  {
    assert (d + tail)[..n] == d[..n];
    assert (d + tail)[n..] == d[n..] + tail;
  }

  /** Cutting a suffix is slicing at an offset: how the parsers below relate to their loops. */
  lemma CutAt(d: bytes, offset: nat, n: nat)
    requires offset <= |d|
    ensures Cut(d[offset..], n) ==
            if offset + n <= |d| then Some((d[offset..offset + n], d[offset + n..])) else None
  {
    if offset + n <= |d| {
      assert d[offset..][..n] == d[offset..offset + n];
      assert d[offset..][n..] == d[offset + n..];
    }
  }

  datatype Option<+T> = None | Some(value: T) {
    predicate IsFailure() {
      None?
    }

    function PropagateFailure<U>(): Option<U>
      requires None?
    {
      None
    }

    function Extract(): T
      requires Some?
    {
      value
    }
  }
}
