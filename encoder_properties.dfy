/**
 * What the encoder promises: the bit-length branches agree with the code
 * point ranges of RFC 3629, unencodable values become U+FFFD, every unit is
 * a well-formed UTF-8 character, and the output is the concatenation of the
 * units.
 */
module EncoderProperties {
  import opened Bits
  import opened Utf8Codec
  import opened Rfc3629

  lemma Pow2Thresholds()
    ensures Pow2(7) == 0x80 && Pow2(11) == 0x800 && Pow2(16) == 0x10000 && Pow2(21) == 0x200000
  {
  }

  /**
   * The encoding table of section 3 of RFC 3629 for scalar values, by code
   * point range: the high-order bits of the value go into the lead byte, six
   * bits into each following byte. On top of the table, this codec's
   * replacement rule: surrogates and values above U+10FFFF become EF BF BD.
   */
  function EncodeByRange(cp: nat): (r: seq<byte>)
  {
    if cp <= 0x7F then
      [cp]
    else if cp <= 0x7FF then
      [0xC0 + cp / 0x40, 0x80 + cp % 0x40]
    else if cp <= 0xFFFF then
      if IsSurrogate(cp) then REPLACEMENT_CHARACTER
      else [0xE0 + cp / 0x1000, 0x80 + (cp / 0x40) % 0x40, 0x80 + cp % 0x40]
    else if cp <= LAST_LEGAL_UNICODE_CODEPOINT then
      [0xF0 + cp / 0x40000, 0x80 + (cp / 0x1000) % 0x40, 0x80 + (cp / 0x40) % 0x40, 0x80 + cp % 0x40]
    else
      REPLACEMENT_CHARACTER
  }

  /** The branch the encoder takes for a value of at most 7, 11, 16 or 21 bits. */
  lemma EncoderBranch(cp: nat)
    ensures BitLen(cp) <= 7 <==> cp <= 0x7F
    ensures BitLen(cp) <= 11 <==> cp <= 0x7FF
    ensures BitLen(cp) <= 16 <==> cp <= 0xFFFF
    ensures BitLen(cp) <= 21 <==> cp <= 0x1FFFFF
  {
    Pow2Thresholds();
    BitLenAtMost(cp, 7);
    BitLenAtMost(cp, 11);
    BitLenAtMost(cp, 16);
    BitLenAtMost(cp, 21);
  }

  // Per range, the encoder's masked bytes (the *Branch lemmas) and the
  // reference bytes (the *Range lemmas) meet in the same sequence.

  lemma OneByteBranch(cp: nat)
    requires BitLen(cp) <= 7
    ensures EncodeUnit(cp) == [cp % 0x80]
  {
  }

  lemma OneByteRange(cp: nat)
    requires cp <= 0x7F
    ensures EncodeByRange(cp) == [cp % 0x80]
  {
    assert cp % 0x80 == cp;
  }

  lemma EncodeOneByte(cp: nat)
    requires cp <= 0x7F && BitLen(cp) <= 7
    ensures EncodeUnit(cp) == EncodeByRange(cp)
  {
    OneByteBranch(cp);
    OneByteRange(cp);
  }

  lemma TwoByteBranch(cp: nat)
    requires 7 < BitLen(cp) <= 11
    ensures EncodeUnit(cp) == [0xC0 + (cp / 0x40) % 0x20, 0x80 + cp % 0x40]
  {
  }

  lemma TwoByteRange(cp: nat)
    requires 0x7F < cp <= 0x7FF
    ensures EncodeByRange(cp) == [0xC0 + (cp / 0x40) % 0x20, 0x80 + cp % 0x40]
  {
    assert cp / 0x40 < 0x20;
    assert (cp / 0x40) % 0x20 == cp / 0x40;
  }

  lemma EncodeTwoBytes(cp: nat)
    requires 0x7F < cp <= 0x7FF && 7 < BitLen(cp) <= 11
    ensures EncodeUnit(cp) == EncodeByRange(cp)
  {
    TwoByteBranch(cp);
    TwoByteRange(cp);
  }

  lemma ThreeByteBranch(cp: nat)
    requires !IsSurrogate(cp) && 11 < BitLen(cp) <= 16
    ensures EncodeUnit(cp) == [0xE0 + (cp / 0x1000) % 0x10, 0x80 + (cp / 0x40) % 0x40, 0x80 + cp % 0x40]
  {
  }

  lemma ThreeByteRange(cp: nat)
    requires 0x7FF < cp <= 0xFFFF && !IsSurrogate(cp)
    ensures EncodeByRange(cp) == [0xE0 + (cp / 0x1000) % 0x10, 0x80 + (cp / 0x40) % 0x40, 0x80 + cp % 0x40]
  {
    assert cp / 0x1000 < 0x10;
    assert (cp / 0x1000) % 0x10 == cp / 0x1000;
  }

  lemma EncodeThreeBytes(cp: nat)
    requires 0x7FF < cp <= 0xFFFF && !IsSurrogate(cp) && 11 < BitLen(cp) <= 16
    ensures EncodeUnit(cp) == EncodeByRange(cp)
  {
    ThreeByteBranch(cp);
    ThreeByteRange(cp);
  }

  lemma FourByteBranch(cp: nat)
    requires cp <= LAST_LEGAL_UNICODE_CODEPOINT && 16 < BitLen(cp) <= 21
    ensures EncodeUnit(cp) ==
      [0xF0 + (cp / 0x40000) % 0x8, 0x80 + (cp / 0x1000) % 0x40, 0x80 + (cp / 0x40) % 0x40, 0x80 + cp % 0x40]
  {
  }

  lemma FourByteRange(cp: nat)
    requires 0xFFFF < cp <= LAST_LEGAL_UNICODE_CODEPOINT
    ensures EncodeByRange(cp) ==
      [0xF0 + (cp / 0x40000) % 0x8, 0x80 + (cp / 0x1000) % 0x40, 0x80 + (cp / 0x40) % 0x40, 0x80 + cp % 0x40]
  {
    assert cp / 0x40000 <= 4;
    assert (cp / 0x40000) % 0x8 == cp / 0x40000;
  }

  lemma EncodeFourBytes(cp: nat)
    requires 0xFFFF < cp <= LAST_LEGAL_UNICODE_CODEPOINT && 16 < BitLen(cp) <= 21
    ensures EncodeUnit(cp) == EncodeByRange(cp)
  {
    FourByteBranch(cp);
    FourByteRange(cp);
  }

  lemma EncodeUnencodable(cp: nat)
    requires (IsSurrogate(cp) && 11 < BitLen(cp) <= 16) || (cp > LAST_LEGAL_UNICODE_CODEPOINT && 16 < BitLen(cp))
    ensures EncodeUnit(cp) == EncodeByRange(cp) == REPLACEMENT_CHARACTER
  {
  }

  /**
   * Branching on 7, 11, 16 and 21 significant bits is branching on the
   * ranges up to 0x7F, 0x7FF, 0xFFFF and 0x1FFFFF; the masks the encoder
   * applies never remove a bit inside those ranges.
   */
  lemma EncodeUnitByRange(cp: nat)
    ensures EncodeUnit(cp) == EncodeByRange(cp)
  {
    EncoderBranch(cp);
    if cp <= 0x7F {
      EncodeOneByte(cp);
    } else if cp <= 0x7FF {
      EncodeTwoBytes(cp);
    } else if cp <= 0xFFFF && !IsSurrogate(cp) {
      EncodeThreeBytes(cp);
    } else if 0xFFFF < cp <= LAST_LEGAL_UNICODE_CODEPOINT {
      EncodeFourBytes(cp);
    } else {
      EncodeUnencodable(cp);
    }
  }

  /** Each code point becomes 1, 2, 3 or 4 bytes, according to its range. */
  lemma EncodedLength(cp: nat)
    ensures |EncodeUnit(cp)| ==
      if cp <= 0x7F then 1
      else if cp <= 0x7FF then 2
      else if cp <= 0xFFFF || cp > LAST_LEGAL_UNICODE_CODEPOINT then 3
      else 4
  {
    EncodeUnitByRange(cp);
  }

  /**
   * Surrogates and values past U+10FFFF become U+FFFD; 0x110000 does so
   * although it fits in 21 bits.
   */
  lemma ReplacementForUnencodable(cp: nat)
    requires !IsScalar(cp)
    ensures EncodeUnit(cp) == REPLACEMENT_CHARACTER
  {
    EncodeUnitByRange(cp);
  }

  lemma OutOfRangeFitsTwentyOneBits()
    ensures BitLen(0x110000) == 21
    ensures EncodeUnit(0x110000) == REPLACEMENT_CHARACTER
  {
    Pow2Thresholds();
    assert Pow2(20) == 0x100000;
    BitLenUnique(0x110000, 21);
    ReplacementForUnencodable(0x110000);
  }

  /**
   * Every unit the encoder writes, the replacement character included, is a
   * well-formed UTF-8 character: lead byte by length, tails in 0x80..0xBF,
   * no overlong form and no surrogate.
   */
  lemma EncodeUnitWellFormed(cp: nat)
    ensures IsUtf8Char(EncodeUnit(cp))
  {
    EncodeUnitByRange(cp);
    var u := EncodeByRange(cp);
    if cp <= 0x7F {
    } else if cp <= 0x7FF {
      assert u == [0xC0 + cp / 0x40, 0x80 + cp % 0x40];
      assert 0xC2 <= u[0] <= 0xDF;
    } else if cp <= 0xFFFF && !IsSurrogate(cp) {
      ThreeByteUnitWellFormed(cp);
    } else if 0x10000 <= cp <= LAST_LEGAL_UNICODE_CODEPOINT {
      FourByteUnitWellFormed(cp);
    }
  }

  lemma ThreeByteUnitWellFormed(cp: nat)
    requires 0x7FF < cp <= 0xFFFF && !IsSurrogate(cp)
    ensures IsUtf8Char(EncodeByRange(cp))
  {
    var u := EncodeByRange(cp);
    assert u == [0xE0 + cp / 0x1000, 0x80 + (cp / 0x40) % 0x40, 0x80 + cp % 0x40];
    if cp < 0x1000 {
      assert u[0] == 0xE0 && u[1] >= 0xA0;
    } else if 0xD000 <= cp < 0xE000 {
      assert u[0] == 0xED && u[1] <= 0x9F;
    } else {
      assert 0xE1 <= u[0] <= 0xEC || 0xEE <= u[0] <= 0xEF;
    }
  }

  lemma FourByteUnitWellFormed(cp: nat)
    requires 0xFFFF < cp <= LAST_LEGAL_UNICODE_CODEPOINT
    ensures IsUtf8Char(EncodeByRange(cp))
  {
    var u := EncodeByRange(cp);
    assert u == [0xF0 + cp / 0x40000, 0x80 + (cp / 0x1000) % 0x40, 0x80 + (cp / 0x40) % 0x40, 0x80 + cp % 0x40];
    if cp < 0x40000 {
      assert u[0] == 0xF0 && u[1] >= 0x90;
    } else if cp >= 0x100000 {
      assert u[0] == 0xF4 && u[1] <= 0x8F;
    } else {
      assert 0xF1 <= u[0] <= 0xF3;
    }
  }

  /** Whatever the input, the encoder's output is well-formed UTF-8. */
  lemma {:induction false} EncodeAllWellFormed(codePoints: seq<nat>)
    ensures IsUtf8(EncodeAll(codePoints))
  {
    if codePoints != [] {
      EncodeUnitWellFormed(codePoints[0]);
      EncodeAllWellFormed(codePoints[1..]);
      Utf8Cons(EncodeUnit(codePoints[0]), EncodeAll(codePoints[1..]));
    }
  }

  /** A one-element input is encoded as the range table says. */
  lemma EncodeSingle(cp: nat, expected: seq<byte>)
    requires EncodeByRange(cp) == expected
    ensures EncodeAll([cp]) == expected
  {
    EncodeUnitByRange(cp);
    assert [cp][1..] == [];
  }

  /** The smallest and largest value of every length. */
  lemma EncodeBoundaryExamples()
    ensures EncodeAll([0x7F]) == [0x7F]
    ensures EncodeAll([0x80]) == [0xC2, 0x80]
    ensures EncodeAll([0x7FF]) == [0xDF, 0xBF]
    ensures EncodeAll([0x800]) == [0xE0, 0xA0, 0x80]
    ensures EncodeAll([0xFFFF]) == [0xEF, 0xBF, 0xBF]
    ensures EncodeAll([0x10000]) == [0xF0, 0x90, 0x80, 0x80]
    ensures EncodeAll([0x10FFFF]) == [0xF4, 0x8F, 0xBF, 0xBF]
  {
    var u1, u2, u3 := [0x7F], [0xC2, 0x80], [0xDF, 0xBF];
    var u4, u5 := [0xE0, 0xA0, 0x80], [0xEF, 0xBF, 0xBF];
    var u6, u7 := [0xF0, 0x90, 0x80, 0x80], [0xF4, 0x8F, 0xBF, 0xBF];
    assert EncodeByRange(0x7F) == u1 && EncodeByRange(0x80) == u2 && EncodeByRange(0x7FF) == u3;
    assert EncodeByRange(0x800) == u4 && EncodeByRange(0xFFFF) == u5;
    assert EncodeByRange(0x10000) == u6 && EncodeByRange(0x10FFFF) == u7;
    EncodeSingle(0x7F, u1);
    EncodeSingle(0x80, u2);
    EncodeSingle(0x7FF, u3);
    EncodeSingle(0x800, u4);
    EncodeSingle(0xFFFF, u5);
    EncodeSingle(0x10000, u6);
    EncodeSingle(0x10FFFF, u7);
  }

  /** The first and last surrogate, the first value past U+10FFFF, and no input at all. */
  lemma EncodeReplacementExamples()
    ensures EncodeAll([0xD800]) == EncodeAll([0xDFFF]) == [0xEF, 0xBF, 0xBD]
    ensures EncodeAll([0x110000]) == [0xEF, 0xBF, 0xBD]
    ensures EncodeAll([]) == []
  {
    EncodeSingle(0xD800, REPLACEMENT_CHARACTER);
    EncodeSingle(0xDFFF, REPLACEMENT_CHARACTER);
    EncodeSingle(0x110000, REPLACEMENT_CHARACTER);
  }

  /** ASCII text widened to code points encodes back to the same bytes. */
  lemma {:induction false} AsciiEncodesToItself(ascii: seq<byte>)
    requires forall i :: 0 <= i < |ascii| ==> ascii[i] < 0x80
    ensures EncodeAll(AsciiToUnicode(ascii)) == ascii
  {
    if ascii != [] {
      AsciiEncodesToItself(ascii[1..]);
      assert AsciiToUnicode(ascii)[1..] == AsciiToUnicode(ascii[1..]);
      EncodeUnitByRange(ascii[0]);
      assert ascii == [ascii[0]] + ascii[1..];
    }
  }
}
