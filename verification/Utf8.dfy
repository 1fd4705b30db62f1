/** UTF-8 as a strict decoder accepts it (section 4 of RFC 3629). */
module Utf8 {
  import opened Bytes

  predicate IsTail(b: byte) {
    0x80 <= b <= 0xBF
  }

  /** The length of the well-formed character at the front, 0 when there is none. */
  function CharWidth(s: bytes): (n: nat)
    ensures n <= |s|
  {
    if s == [] then 0
    else if s[0] <= 0x7F then 1
    else if |s| < 2 then 0
    else if 0xC2 <= s[0] <= 0xDF && IsTail(s[1]) then 2
    else if |s| < 3 || !IsTail(s[2]) then 0
    else if s[0] == 0xE0 && 0xA0 <= s[1] <= 0xBF then 3
    else if s[0] == 0xED && 0x80 <= s[1] <= 0x9F then 3
    else if (0xE1 <= s[0] <= 0xEC || 0xEE <= s[0] <= 0xEF) && IsTail(s[1]) then 3
    else if |s| < 4 || !IsTail(s[3]) then 0
    else if s[0] == 0xF0 && 0x90 <= s[1] <= 0xBF then 4
    else if 0xF1 <= s[0] <= 0xF3 && IsTail(s[1]) then 4
    else if s[0] == 0xF4 && 0x80 <= s[1] <= 0x8F then 4
    else 0
  }

  predicate IsText(s: bytes)
    decreases |s|
  {
    s == [] || (CharWidth(s) > 0 && IsText(s[CharWidth(s)..]))
  }

  predicate IsAscii(s: bytes) {
    forall b :: b in s ==> b < 0x80
  }
}
