/**
 * What the decoder does with its input: it inverts the encoder on Unicode
 * scalar values, reads well-formed UTF-8 back into the code points that
 * encode to it, and, because every call starts afresh, loses a character
 * whose bytes are split between two calls.
 */
module DecoderProperties {
  import opened Bits
  import opened Utf8Codec
  import opened Rfc3629
  import opened EncoderProperties

  /** Decoding a + b is decoding a, then decoding b from where a left off. */
  lemma {:induction false} RunAppend(s: DecoderState, a: seq<byte>, b: seq<byte>)
    ensures Run(s, a + b) ==
      Outcome(Run(Run(s, a).state, b).state, Run(s, a).emitted + Run(Run(s, a).state, b).emitted)
    decreases |b|
  {
    if b == [] {
      assert a + b == a;
    } else {
      var b' := b[..|b| - 1];
      assert (a + b)[..|a + b| - 1] == a + b';
      assert (a + b)[|a + b| - 1] == b[|b| - 1];
      RunAppend(s, a, b');
    }
  }

  /** Decoding one byte is one step. */
  lemma RunOne(s: DecoderState, b: byte)
    ensures Run(s, [b]) == Step(s, b)
  {
    assert [b][..0] == [];
  }

  /** Decoding a byte in front of more bytes. */
  lemma RunCons(s: DecoderState, b: byte, rest: seq<byte>)
    ensures Run(s, [b] + rest) ==
      Outcome(Run(Step(s, b).state, rest).state, Step(s, b).emitted + Run(Step(s, b).state, rest).emitted)
  {
    RunAppend(s, [b], rest);
    RunOne(s, b);
  }

  // ---------------------------------------------------------------------
  // Encoding then decoding

  lemma DivideTwice(x: nat)
    ensures x / 0x1000 == (x / 0x40) / 0x40
    ensures x / 0x40000 == (x / 0x1000) / 0x40
  {
  }

  lemma TwoByteRoundTrip(len: nat, cp: nat)
    requires 0x7F < cp <= 0x7FF
    ensures Run(Reset(len), EncodeByRange(cp)) == Outcome(Reset(2), [cp])
  {
    var b0, b1 := 0xC0 + cp / 0x40, 0x80 + cp % 0x40;
    assert EncodeByRange(cp) == [b0] + [b1];
    assert Pow2(6) == 0x40;
    var s1 := DecoderState(cp / 0x40, 2, 1);
    assert Step(Reset(len), b0) == Outcome(s1, []);
    assert Step(s1, b1) == Outcome(Reset(2), [cp]);
    RunCons(Reset(len), b0, [b1]);
    RunOne(s1, b1);
  }

  lemma ThreeByteRoundTrip(len: nat, cp: nat)
    requires 0x7FF < cp <= 0xFFFF && !IsSurrogate(cp)
    ensures Run(Reset(len), EncodeByRange(cp)) == Outcome(Reset(3), [cp])
  {
    var b0, b1, b2 := 0xE0 + cp / 0x1000, 0x80 + (cp / 0x40) % 0x40, 0x80 + cp % 0x40;
    assert EncodeByRange(cp) == [b0] + ([b1] + [b2]);
    assert Pow2(5) == 0x20;
    DivideTwice(cp);
    var s1 := DecoderState(cp / 0x1000, 3, 1);
    var s2 := DecoderState(cp / 0x40, 3, 2);
    assert Step(Reset(len), b0) == Outcome(s1, []);
    assert Step(s1, b1) == Outcome(s2, []);
    assert Step(s2, b2) == Outcome(Reset(3), [cp]);
    RunCons(Reset(len), b0, [b1] + [b2]);
    RunCons(s1, b1, [b2]);
    RunOne(s2, b2);
  }

  lemma FourByteRoundTrip(len: nat, cp: nat)
    requires 0xFFFF < cp <= LAST_LEGAL_UNICODE_CODEPOINT
    ensures Run(Reset(len), EncodeByRange(cp)) == Outcome(Reset(4), [cp])
  {
    var b0, b1 := 0xF0 + cp / 0x40000, 0x80 + (cp / 0x1000) % 0x40;
    var b2, b3 := 0x80 + (cp / 0x40) % 0x40, 0x80 + cp % 0x40;
    assert EncodeByRange(cp) == [b0] + ([b1] + ([b2] + [b3]));
    assert Pow2(4) == 0x10;
    DivideTwice(cp);
    var s1 := DecoderState(cp / 0x40000, 4, 1);
    var s2 := DecoderState(cp / 0x1000, 4, 2);
    var s3 := DecoderState(cp / 0x40, 4, 3);
    assert Step(Reset(len), b0) == Outcome(s1, []);
    assert Step(s1, b1) == Outcome(s2, []);
    assert Step(s2, b2) == Outcome(s3, []);
    assert Step(s3, b3) == Outcome(Reset(4), [cp]);
    RunCons(Reset(len), b0, [b1] + ([b2] + [b3]));
    RunCons(s1, b1, [b2] + [b3]);
    RunCons(s2, b2, [b3]);
    RunOne(s3, b3);
  }

  /**
   * A scalar value's bytes decode back to it, and the decoder is again at
   * rest (position and accumulator 0) afterwards.
   */
  lemma UnitRoundTrip(len: nat, cp: nat)
    requires IsScalar(cp)
    ensures Run(Reset(len), EncodeUnit(cp)) ==
      Outcome(Reset(if cp <= 0x7F then len else |EncodeUnit(cp)|), [cp])
  {
    EncodeUnitByRange(cp);
    if cp <= 0x7F {
      RunOne(Reset(len), cp);
    } else if cp <= 0x7FF {
      TwoByteRoundTrip(len, cp);
    } else if cp <= 0xFFFF {
      ThreeByteRoundTrip(len, cp);
    } else {
      FourByteRoundTrip(len, cp);
    }
  }

  predicate AllScalars(codePoints: seq<nat>)
  {
    forall i :: 0 <= i < |codePoints| ==> IsScalar(codePoints[i])
  }

  /**
   * Decoding the encoding of scalar values gives them back, from any state
   * a decode call starts in, and leaves the decoder at rest.
   */
  lemma {:induction false} RoundTripFrom(len: nat, codePoints: seq<nat>)
    requires AllScalars(codePoints)
    ensures Run(Reset(len), EncodeAll(codePoints)).emitted == codePoints
    ensures Run(Reset(len), EncodeAll(codePoints)).state.pos == 0
    ensures Run(Reset(len), EncodeAll(codePoints)).state.acc == 0
    decreases |codePoints|
  {
    if codePoints != [] {
      var cp, rest := codePoints[0], codePoints[1..];
      UnitRoundTrip(len, cp);
      var after := Run(Reset(len), EncodeUnit(cp)).state;
      RoundTripFrom(after.len, rest);
      RunAppend(Reset(len), EncodeUnit(cp), EncodeAll(rest));
      assert codePoints == [cp] + rest;
    }
  }

  /** Decode(Encode(codePoints)) == codePoints for Unicode scalar values. */
  lemma RoundTrip(codePoints: seq<nat>)
    requires AllScalars(codePoints)
    ensures DecodeBytes(EncodeAll(codePoints)) == codePoints
  {
    RoundTripFrom(0, codePoints);
  }

  /**
   * The encoder writes the replacement character for exactly the values it
   * cannot encode, and for U+FFFD itself.
   */
  lemma ReplacementExactly(cp: nat)
    ensures EncodeUnit(cp) == REPLACEMENT_CHARACTER <==> !IsScalar(cp) || cp == 0xFFFD
  {
    if IsScalar(cp) {
      var replacement := REPLACEMENT_CHARACTER;
      assert EncodeByRange(0xFFFD) == replacement;
      EncodeUnitByRange(0xFFFD);
      UnitRoundTrip(0, 0xFFFD);
      UnitRoundTrip(0, cp);
      if EncodeUnit(cp) == replacement {
        assert [cp] == Run(Reset(0), replacement).emitted == [0xFFFD];
      }
    } else {
      ReplacementForUnencodable(cp);
    }
  }

  // ---------------------------------------------------------------------
  // Decoding well-formed UTF-8

  /**
   * The value a well-formed character stands for: the bits after the length
   * marker of its first byte, then six bits from each following byte.
   */
  function CharValue(u: seq<byte>): (r: nat)
    requires 1 <= |u| <= 4
  {
    if |u| == 1 then u[0] as nat
    else if |u| == 2 then (u[0] as nat % 0x20) * 0x40 + u[1] as nat % 0x40
    else if |u| == 3 then (u[0] as nat % 0x10) * 0x1000 + (u[1] as nat % 0x40) * 0x40 + u[2] as nat % 0x40
    else (u[0] as nat % 0x8) * 0x40000 + (u[1] as nat % 0x40) * 0x1000 + (u[2] as nat % 0x40) * 0x40 + u[3] as nat % 0x40
  }

  lemma TwoByteCharValue(u: seq<byte>)
    requires |u| == 2 && IsUtf8Char(u)
    ensures IsScalar(CharValue(u)) && EncodeByRange(CharValue(u)) == u
  {
    var cp := CharValue(u);
    assert cp / 0x40 == u[0] as int - 0xC0 && cp % 0x40 == u[1] as int - 0x80;
    assert EncodeByRange(cp) == [u[0], u[1]];
  }

  lemma ThreeByteCharValue(u: seq<byte>)
    requires |u| == 3 && IsUtf8Char(u)
    ensures IsScalar(CharValue(u)) && EncodeByRange(CharValue(u)) == u
  {
    var cp := CharValue(u);
    var x, y, z := u[0] as int - 0xE0, u[1] as int - 0x80, u[2] as int - 0x80;
    assert cp == x * 0x1000 + y * 0x40 + z;
    assert cp / 0x40 == x * 0x40 + y;
    DivideTwice(cp);
    assert cp / 0x1000 == x && (cp / 0x40) % 0x40 == y && cp % 0x40 == z;
    assert 0x800 <= cp && !IsSurrogate(cp);
    assert EncodeByRange(cp) == [u[0], u[1], u[2]];
  }

  lemma FourByteCharValue(u: seq<byte>)
    requires |u| == 4 && IsUtf8Char(u)
    ensures IsScalar(CharValue(u)) && EncodeByRange(CharValue(u)) == u
  {
    assert 0xF0 <= u[0] <= 0xF4 && IsTail(u[1]) && IsTail(u[2]) && IsTail(u[3]);
    assert u[0] == 0xF0 ==> u[1] >= 0x90;
    assert u[0] == 0xF4 ==> u[1] <= 0x8F;
    var w, x, y, z := u[0] as nat - 0xF0, u[1] as nat - 0x80, u[2] as nat - 0x80, u[3] as nat - 0x80;
    FourByteDigits(u);
    assert 0x10000 <= CharValue(u) <= LAST_LEGAL_UNICODE_CODEPOINT;
    FourDigitsEncode(w, x, y, z);
    assert u == [0xF0 + w, 0x80 + x, 0x80 + y, 0x80 + z];
  }

  /** The value of four bytes led by F0..F7: three bits of the lead, six of each later byte. */
  lemma FourByteDigits(u: seq<byte>)
    requires |u| == 4 && 0xF0 <= u[0] < 0xF8 && IsTail(u[1]) && IsTail(u[2]) && IsTail(u[3])
    ensures CharValue(u) ==
      (u[0] as nat - 0xF0) * 0x40000 + (u[1] as nat - 0x80) * 0x1000 + (u[2] as nat - 0x80) * 0x40 + (u[3] as nat - 0x80)
  {
    assert u[0] as nat % 0x8 == u[0] as nat - 0xF0 && u[1] as nat % 0x40 == u[1] as nat - 0x80;
    assert u[2] as nat % 0x40 == u[2] as nat - 0x80 && u[3] as nat % 0x40 == u[3] as nat - 0x80;
  }

  /** A value of four digits in the four-byte range is encoded as those digits behind their markers. */
  lemma FourDigitsEncode(w: nat, x: nat, y: nat, z: nat)
    requires w < 0x8 && x < 0x40 && y < 0x40 && z < 0x40
    requires 0x10000 <= w * 0x40000 + x * 0x1000 + y * 0x40 + z <= LAST_LEGAL_UNICODE_CODEPOINT
    ensures EncodeByRange(w * 0x40000 + x * 0x1000 + y * 0x40 + z) == [0xF0 + w, 0x80 + x, 0x80 + y, 0x80 + z]
  {
    var cp := w * 0x40000 + x * 0x1000 + y * 0x40 + z;
    FourDigits(cp, w, x, y, z);
    assert EncodeByRange(cp) ==
      [0xF0 + cp / 0x40000, 0x80 + (cp / 0x1000) % 0x40, 0x80 + (cp / 0x40) % 0x40, 0x80 + cp % 0x40];
  }

  /** A value written as a 3-bit digit and three 6-bit digits gives those digits back. */
  lemma FourDigits(cp: nat, w: nat, x: nat, y: nat, z: nat)
    requires w < 0x8 && x < 0x40 && y < 0x40 && z < 0x40
    requires cp == w * 0x40000 + x * 0x1000 + y * 0x40 + z
    ensures cp / 0x40000 == w && (cp / 0x1000) % 0x40 == x && (cp / 0x40) % 0x40 == y && cp % 0x40 == z
  {
    assert cp / 0x40 == w * 0x1000 + x * 0x40 + y;
    DivideTwice(cp);
    assert cp / 0x1000 == w * 0x40 + x;
  }

  /**
   * Every well-formed character is the encoding of exactly the scalar value
   * CharValue reads from it.
   */
  lemma CharValueEncodes(u: seq<byte>)
    requires IsUtf8Char(u)
    ensures IsScalar(CharValue(u)) && EncodeUnit(CharValue(u)) == u
  {
    EncodeUnitByRange(CharValue(u));
    if |u| == 1 {
    } else if |u| == 2 {
      TwoByteCharValue(u);
    } else if |u| == 3 {
      ThreeByteCharValue(u);
    } else {
      FourByteCharValue(u);
    }
  }

  /**
   * Well-formed UTF-8 decodes, from any state a decode call starts in, into
   * scalar values whose encoding is the input, and leaves the decoder at rest.
   */
  lemma {:induction false} DecodeWellFormedFrom(len: nat, bytes: seq<byte>)
    requires IsUtf8(bytes)
    ensures AllScalars(Run(Reset(len), bytes).emitted)
    ensures EncodeAll(Run(Reset(len), bytes).emitted) == bytes
    ensures Run(Reset(len), bytes).state.pos == 0
    ensures Run(Reset(len), bytes).state.acc == 0
    decreases |bytes|
  {
    if bytes != [] {
      var n := CharLength(bytes[0]);
      var u, rest := bytes[..n], bytes[n..];
      assert bytes == u + rest;
      var cp := CharValue(u);
      CharValueEncodes(u);
      CharacterThenRest(len, u, rest);
      var after := Run(Reset(len), u).state;
      DecodeWellFormedFrom(after.len, rest);
      ScalarsCons(cp, Run(after, rest).emitted);
    }
  }

  lemma ScalarsCons(cp: nat, tail: seq<nat>)
    requires IsScalar(cp) && AllScalars(tail)
    ensures AllScalars([cp] + tail)
    ensures EncodeAll([cp] + tail) == EncodeUnit(cp) + EncodeAll(tail)
  {
    assert ([cp] + tail)[1..] == tail;
  }

  /** A well-formed character emits its value and leaves the decoder at rest for what follows. */
  lemma CharacterThenRest(len: nat, u: seq<byte>, rest: seq<byte>)
    requires IsUtf8Char(u)
    ensures Run(Reset(len), u).state == Reset(Run(Reset(len), u).state.len)
    ensures Run(Reset(len), u + rest) ==
      Outcome(Run(Run(Reset(len), u).state, rest).state, [CharValue(u)] + Run(Run(Reset(len), u).state, rest).emitted)
  {
    CharValueEncodes(u);
    UnitRoundTrip(len, CharValue(u));
    RunAppend(Reset(len), u, rest);
  }

  /** Encode(Decode(bytes)) == bytes for well-formed UTF-8, and every value decoded is a scalar. */
  lemma DecodeWellFormed(bytes: seq<byte>)
    requires IsUtf8(bytes)
    ensures AllScalars(DecodeBytes(bytes))
    ensures EncodeAll(DecodeBytes(bytes)) == bytes
  {
    DecodeWellFormedFrom(0, bytes);
  }

  // ---------------------------------------------------------------------
  // ASCII

  /** ASCII bytes are passed through one for one, whatever the state. */
  lemma {:induction false} DecodeAscii(s: DecoderState, bytes: seq<byte>)
    requires forall i :: 0 <= i < |bytes| ==> bytes[i] < 0x80
    ensures Run(s, bytes) == Outcome(s, AsciiToUnicode(bytes))
    decreases |bytes|
  {
    if bytes != [] {
      var front := bytes[..|bytes| - 1];
      DecodeAscii(s, front);
      assert AsciiToUnicode(bytes) == AsciiToUnicode(front) + [bytes[|bytes| - 1]];
    }
  }

  /** An ASCII byte inside a multi-byte character is emitted at once and the character still completes. */
  lemma AsciiInsideCharacterExample()
    ensures DecodeBytes([0xC3, 0x41, 0xA9]) == [0x41, 0xE9]
  {
    assert Pow2(6) == 0x40;
    var s1 := DecoderState(0x03, 2, 1);
    assert Step(Reset(0), 0xC3) == Outcome(s1, []);
    assert Step(s1, 0x41) == Outcome(s1, [0x41]);
    assert Step(s1, 0xA9) == Outcome(Reset(2), [0xE9]);
    RunCons(Reset(0), 0xC3, [0x41] + [0xA9]);
    RunCons(s1, 0x41, [0xA9]);
    RunOne(s1, 0xA9);
    assert [0xC3, 0x41, 0xA9] == [0xC3] + ([0x41] + [0xA9]);
  }

  // ---------------------------------------------------------------------
  // Bytes that do not complete a character

  /** The ASCII bytes of a sequence, in order. */
  function AsciiOnly(bytes: seq<byte>): (r: seq<nat>)
    ensures |r| <= |bytes|
    ensures (forall i :: 0 <= i < |bytes| ==> bytes[i] >= 0x80) ==> r == []
    ensures (forall i :: 0 <= i < |bytes| ==> bytes[i] < 0x80) ==> r == AsciiToUnicode(bytes)
    decreases |bytes|
  {
    if bytes == [] then []
    else
      var front, last := bytes[..|bytes| - 1], bytes[|bytes| - 1];
      assert AsciiToUnicode(bytes) == AsciiToUnicode(front) + [last];
      AsciiOnly(front) + (if last < 0x80 then [last] else [])
  }

  /**
   * While a character is being read and not yet due, bytes of 0x80 and above
   * only advance the position and emit nothing.
   */
  lemma {:induction false} MidCharacter(s: DecoderState, bytes: seq<byte>)
    requires 1 <= s.pos && s.pos + |bytes| < s.len
    requires forall i :: 0 <= i < |bytes| ==> bytes[i] >= 0x80
    ensures Run(s, bytes).emitted == []
    ensures Run(s, bytes).state.pos == s.pos + |bytes|
    ensures Run(s, bytes).state.len == s.len
    ensures Run(s, bytes).state.acc == SixBitDigits(s.acc, bytes)
    decreases |bytes|
  {
    if bytes != [] {
      MidCharacter(s, bytes[..|bytes| - 1]);
    }
  }

  /**
   * The value of hi followed by the low six bits of each byte, read as
   * base-64 digits, most significant first.
   */
  function SixBitDigits(hi: nat, bytes: seq<byte>): (r: nat)
    ensures hi <= r
    decreases |bytes|
  {
    if bytes == [] then hi
    else SixBitDigits(hi, bytes[..|bytes| - 1]) * 0x40 + bytes[|bytes| - 1] % 0x40
  }

  /**
   * The decoder is permissive. A lead byte announcing n >= 2 bytes, followed
   * by n - 1 bytes of 0x80 and above, emits one value: the lead byte's low
   * 8 - n bits followed by six bits of each later byte. The top two bits of
   * the later bytes are never checked, so lead bytes pass as tails; the
   * value is not checked either, so overlong forms, surrogates and values
   * past U+10FFFF come out as they are; and F8..FF count as 4-byte leads
   * keeping four payload bits.
   */
  lemma PermissiveCharacter(len: nat, u: seq<byte>)
    requires 2 <= |u| && LeadLength(u[0]) == |u|
    requires forall j :: 1 <= j < |u| ==> u[j] >= 0x80
    ensures Run(Reset(len), u) == Outcome(Reset(|u|), [SixBitDigits(u[0] % Pow2(8 - |u|), u[1..])])
  {
    var s1 := DecoderState(u[0] % Pow2(8 - |u|), |u|, 1);
    assert Step(Reset(len), u[0]) == Outcome(s1, []);
    assert u == [u[0]] + u[1..];
    RunCons(Reset(len), u[0], u[1..]);
    CompleteCharacter(s1, u[1..]);
  }

  /**
   * Bytes of 0x80 and above that bring the position to the last byte of the
   * character emit the accumulated value with six more bits from each, and
   * clear position and accumulator.
   */
  lemma CompleteCharacter(s: DecoderState, bytes: seq<byte>)
    requires 1 <= s.pos < s.len && s.pos + |bytes| == s.len
    requires forall i :: 0 <= i < |bytes| ==> bytes[i] >= 0x80
    ensures Run(s, bytes) == Outcome(Reset(s.len), [SixBitDigits(s.acc, bytes)])
  {
    var mid, last := bytes[..|bytes| - 1], bytes[|bytes| - 1];
    MidCharacter(s, mid);
    var open := Run(s, mid).state;
    assert open == DecoderState(SixBitDigits(s.acc, mid), s.len, s.len - 1);
    assert SixBitDigits(s.acc, bytes) == open.acc * 0x40 + last % 0x40;
    assert Step(open, last) == Outcome(Reset(s.len), [SixBitDigits(s.acc, bytes)]);
    assert Run(s, bytes) == Outcome(Step(open, last).state, Run(s, mid).emitted + Step(open, last).emitted);
  }


  /** C0 80, an overlong form of U+0000, decodes to 0. */
  lemma OverlongExample()
    ensures DecodeBytes([0xC0, 0x80]) == [0]
  {
    var u := [0xC0, 0x80];
    assert Pow2(6) == 0x40;
    assert u[1..] == [0x80] && [0x80][..0] == [];
    PermissiveCharacter(0, u);
  }

  /** C3 C3: the second lead byte is taken as a tail and gives its low six bits. */
  lemma LeadAsTailExample()
    ensures DecodeBytes([0xC3, 0xC3]) == [0xC3]
  {
    var u := [0xC3, 0xC3];
    assert Pow2(6) == 0x40;
    assert u[1..] == [0xC3] && [0xC3][..0] == [];
    PermissiveCharacter(0, u);
  }

  /** A three-byte character read digit by digit: five bits of the lead, then six of each tail. */
  lemma ThreeByteCharacter(b0: byte, b1: byte, b2: byte)
    requires 0xE0 <= b0 < 0xF0 && b1 >= 0x80 && b2 >= 0x80
    ensures DecodeBytes([b0, b1, b2]) == [(b0 % 0x20 * 0x40 + b1 % 0x40) * 0x40 + b2 % 0x40]
  {
    var t := [b1, b2];
    assert Pow2(5) == 0x20;
    assert t[..1] == [b1] && [b1][..0] == [];
    assert SixBitDigits(b0 % 0x20, [b1]) == b0 % 0x20 * 0x40 + b1 % 0x40;
    var u := [b0] + t;
    assert u[1..] == t;
    PermissiveCharacter(0, u);
    assert u == [b0, b1, b2];
  }

  /**
   * A four-byte character read digit by digit: four bits of the lead (the
   * decoder masks F0..FF with 0x0F), then six of each tail.
   */
  lemma FourByteCharacter(b0: byte, b1: byte, b2: byte, b3: byte)
    requires b0 >= 0xF0 && b1 >= 0x80 && b2 >= 0x80 && b3 >= 0x80
    ensures DecodeBytes([b0, b1, b2, b3]) ==
      [((b0 % 0x10 * 0x40 + b1 % 0x40) * 0x40 + b2 % 0x40) * 0x40 + b3 % 0x40]
  {
    var t := [b1, b2, b3];
    assert Pow2(4) == 0x10;
    assert t[..2] == [b1, b2] && t[..2][..1] == [b1] && [b1][..0] == [];
    assert SixBitDigits(b0 % 0x10, [b1]) == b0 % 0x10 * 0x40 + b1 % 0x40;
    assert SixBitDigits(b0 % 0x10, [b1, b2]) == (b0 % 0x10 * 0x40 + b1 % 0x40) * 0x40 + b2 % 0x40;
    var u := [b0] + t;
    assert u[1..] == t;
    PermissiveCharacter(0, u);
    assert u == [b0, b1, b2, b3];
  }

  /** ED A0 80, the three-byte form of the surrogate U+D800, decodes to 0xD800. */
  lemma SurrogateExample()
    ensures DecodeBytes([0xED, 0xA0, 0x80]) == [0xD800]
  {
    ThreeByteCharacter(0xED, 0xA0, 0x80);
  }

  /** F4 90 80 80 decodes to 0x110000, past U+10FFFF. */
  lemma PastUnicodeExample()
    ensures DecodeBytes([0xF4, 0x90, 0x80, 0x80]) == [0x110000]
  {
    FourByteCharacter(0xF4, 0x90, 0x80, 0x80);
  }

  /** F8 88 80 80: a lead byte with five leading 1-bits is read as a four-byte lead keeping four payload bits. */
  lemma FiveOnesLeadExample()
    ensures DecodeBytes([0xF8, 0x88, 0x80, 0x80]) == [0x208000]
  {
    FourByteCharacter(0xF8, 0x88, 0x80, 0x80);
  }

  /** FF FF FF FF decodes to 0x3FFFFF, the largest value four bytes can give. */
  lemma AllOnesExample()
    ensures DecodeBytes([0xFF, 0xFF, 0xFF, 0xFF]) == [0x3FFFFF]
  {
    FourByteCharacter(0xFF, 0xFF, 0xFF, 0xFF);
  }

  /**
   * A byte of 0x80..0xBF where a character should start sets the expected
   * length to 1 with the position already at 1, and the position never meets
   * the length again: from then on only ASCII bytes come out of this call.
   */
  lemma {:induction false} StrayContinuation(s: DecoderState, bytes: seq<byte>)
    requires s.len == 1 && s.pos >= 1
    ensures Run(s, bytes).emitted == AsciiOnly(bytes)
    ensures Run(s, bytes).state.len == 1 && Run(s, bytes).state.pos >= 1
    decreases |bytes|
  {
    if bytes != [] {
      StrayContinuation(s, bytes[..|bytes| - 1]);
    }
  }

  lemma StrayContinuationAtRest(len: nat, b: byte, rest: seq<byte>)
    requires IsTail(b)
    ensures Run(Reset(len), [b] + rest).emitted == AsciiOnly(rest)
  {
    RunCons(Reset(len), b, rest);
    StrayContinuation(Step(Reset(len), b).state, rest);
  }

  /** The first byte of a multi-byte character announces its length; the others are tails. */
  lemma CharShape(u: seq<byte>)
    requires IsUtf8Char(u) && |u| >= 2
    ensures u[0] >= 0x80 && LeadLength(u[0]) == |u|
    ensures forall j :: 1 <= j < |u| ==> IsTail(u[j])
  {
  }

  /**
   * A well-formed multi-byte character cut in two: the first part is a lead
   * byte with fewer tails than it announces, the second part tails only, and
   * decoding either part alone emits nothing.
   */
  lemma SplitCharacterLost(u: seq<byte>, k: nat)
    requires IsUtf8Char(u) && 0 < k < |u|
    ensures DecodeBytes(u[..k]) == []
    ensures DecodeBytes(u[k..]) == []
  {
    CharShape(u);
    assert u[..k] == [u[0]] + u[1..k];
    var s1 := Step(Reset(0), u[0]).state;
    assert s1.len == |u| && s1.pos == 1;
    RunCons(Reset(0), u[0], u[1..k]);
    MidCharacter(s1, u[1..k]);
    assert u[k..] == [u[k]] + u[k + 1..];
    StrayContinuationAtRest(0, u[k], u[k + 1..]);
  }

  /**
   * Each decode call starts afresh, so a character whose bytes are split
   * between two calls is lost: neither call emits anything for it, although
   * one call given all its bytes emits the value.
   */
  lemma SplitCharacterNotResumed(cp: nat, k: nat)
    requires IsScalar(cp) && 0 < k < |EncodeUnit(cp)|
    ensures DecodeBytes(EncodeUnit(cp)) == [cp]
    ensures DecodeBytes(EncodeUnit(cp)[..k]) == []
    ensures DecodeBytes(EncodeUnit(cp)[k..]) == []
  {
    UnitRoundTrip(0, cp);
    EncodeUnitWellFormed(cp);
    SplitCharacterLost(EncodeUnit(cp), k);
  }

  /** U+00E9 is C3 A9; given in two calls, as C3 and then A9, it is lost. */
  lemma SplitCharacterExample()
    ensures DecodeBytes([0xC3, 0xA9]) == [0xE9]
    ensures DecodeBytes([0xC3]) == []
    ensures DecodeBytes([0xA9]) == []
  {
    var u := [0xC3, 0xA9];
    assert EncodeByRange(0xE9) == u;
    EncodeUnitByRange(0xE9);
    SplitCharacterNotResumed(0xE9, 1);
    assert u[..1] == [0xC3] && u[1..] == [0xA9];
  }

  // ---------------------------------------------------------------------
  // On the codec object

  /** Decode(Encode(codePoints)) == codePoints on any codec, whatever it decoded before. */
  method EncodeThenDecode(codec: UTF8, codePoints: seq<nat>) returns (decoded: seq<nat>)
    requires AllScalars(codePoints)
    modifies codec
    ensures decoded == codePoints
    ensures codec.encodingPosition == 0 && codec.unicodeCodePointValue == 0
  {
    var encoded := codec.Encode(codePoints);
    decoded := codec.Decode(encoded);
    RoundTripFrom(old(codec.utf8RepresentationLen), codePoints);
    RunIgnoresStaleLength(old(codec.utf8RepresentationLen), encoded);
  }

  /** U+00E9 handed to the same codec in two calls, C3 and then A9, comes out of neither. */
  method DecodeSplitAcrossCalls(codec: UTF8) returns (first: seq<nat>, second: seq<nat>)
    modifies codec
    ensures first == [] && second == []
    ensures codec.encodingPosition == 1 && codec.utf8RepresentationLen == 1
  {
    SplitCharacterExample();
    first := codec.Decode([0xC3]);
    second := codec.Decode([0xA9]);
    RunOne(Reset(2), 0xA9);
  }
}
