/**
 * Well-formed UTF-8 as the syntax of section 4 of RFC 3629 defines it: the
 * byte ranges each position of a one- to four-byte character may take.
 */
module Rfc3629 {
  import opened Utf8Codec

  /** UTF8-tail = %x80-BF */
  predicate IsTail(b: byte)
  {
    0x80 <= b <= 0xBF
  }

  /** UTF8-char = UTF8-1 / UTF8-2 / UTF8-3 / UTF8-4 */
  predicate IsUtf8Char(u: seq<byte>)
  {
    // UTF8-1 = %x00-7F
    (|u| == 1 && u[0] <= 0x7F)
    // UTF8-2 = %xC2-DF UTF8-tail
    || (|u| == 2 && 0xC2 <= u[0] <= 0xDF && IsTail(u[1]))
    // UTF8-3 = %xE0 %xA0-BF UTF8-tail / %xE1-EC 2( UTF8-tail ) /
    //          %xED %x80-9F UTF8-tail / %xEE-EF 2( UTF8-tail )
    || (|u| == 3 && IsTail(u[2]) &&
        ((u[0] == 0xE0 && 0xA0 <= u[1] <= 0xBF)
         || ((0xE1 <= u[0] <= 0xEC || 0xEE <= u[0] <= 0xEF) && IsTail(u[1]))
         || (u[0] == 0xED && 0x80 <= u[1] <= 0x9F)))
    // UTF8-4 = %xF0 %x90-BF 2( UTF8-tail ) / %xF1-F3 3( UTF8-tail ) /
    //          %xF4 %x80-8F 2( UTF8-tail )
    || (|u| == 4 && IsTail(u[2]) && IsTail(u[3]) &&
        ((u[0] == 0xF0 && 0x90 <= u[1] <= 0xBF)
         || (0xF1 <= u[0] <= 0xF3 && IsTail(u[1]))
         || (u[0] == 0xF4 && 0x80 <= u[1] <= 0x8F)))
  }

  /** The length of the character a byte starts, or 0 if no character starts with it. */
  function CharLength(lead: byte): (n: nat)
    ensures n <= 4
  {
    if lead <= 0x7F then 1
    else if 0xC2 <= lead <= 0xDF then 2
    else if 0xE0 <= lead <= 0xEF then 3
    else if 0xF0 <= lead <= 0xF4 then 4
    else 0
  }

  /** The first byte of a character fixes its length. */
  lemma CharLengthOfLead(u: seq<byte>)
    requires IsUtf8Char(u)
    ensures CharLength(u[0]) == |u|
  {
  }

  /** UTF8-octets = *( UTF8-char ) */
  predicate IsUtf8(bytes: seq<byte>)
    decreases |bytes|
  {
    bytes == [] ||
    (var n := CharLength(bytes[0]);
     0 < n <= |bytes| && IsUtf8Char(bytes[..n]) && IsUtf8(bytes[n..]))
  }

  /** A character followed by well-formed UTF-8 is well-formed UTF-8. */
  lemma Utf8Cons(u: seq<byte>, rest: seq<byte>)
    requires IsUtf8Char(u) && IsUtf8(rest)
    ensures IsUtf8(u + rest)
  {
    CharLengthOfLead(u);
    assert (u + rest)[0] == u[0];
    assert (u + rest)[..|u|] == u;
    assert (u + rest)[|u|..] == rest;
  }
}
