/**
 * The UTF-8 codec: the ASCII adapter, the encoder (code points to bytes) and
 * the decoder (bytes to code points), whose resume state lives in an object.
 *
 * Code points are unbounded naturals: the encoder accepts any unsigned value
 * and the decoder's accumulator is never truncated.
 */
module Utf8Codec {
  import opened Bits

  /** An 8-bit unsigned value (`uint8_t`). */
  type byte = x: int | 0 <= x < 0x100

  /** U+FFFD in UTF-8, written for every code point that cannot be encoded. */
  const REPLACEMENT_CHARACTER: seq<byte> := [0xEF, 0xBF, 0xBD]
  const UTF8_ENCODED_CHAR_MAX_LEN: nat := 4
  const LAST_LEGAL_UNICODE_CODEPOINT: nat := 0x10FFFF
  const FIRST_SURROGATE: nat := 0xD800
  const LAST_SURROGATE: nat := 0xDFFF

  predicate IsSurrogate(cp: nat)
  {
    FIRST_SURROGATE <= cp <= LAST_SURROGATE
  }

  /** A Unicode scalar value: a code point that may be encoded on its own. */
  predicate IsScalar(cp: nat)
  {
    cp <= LAST_LEGAL_UNICODE_CODEPOINT && !IsSurrogate(cp)
  }

  // ---------------------------------------------------------------------
  // ASCII adapter

  /** Widens every character of an 8-bit string to a code point. */
  function AsciiToUnicode(ascii: seq<byte>): (r: seq<nat>)
    ensures |r| == |ascii|
    ensures forall i :: 0 <= i < |ascii| && ascii[i] < 0x80 ==> r[i] == ascii[i]
  {
    seq(|ascii|, i requires 0 <= i < |ascii| => ascii[i] as nat)
  }

  // ---------------------------------------------------------------------
  // Encoder specification

  /**
   * The bytes written for one code point, branching on its bit length as the
   * encoder does. Each `(x & mask) | tag` of the encoder combines disjoint
   * bits, so it is written here as `tag + x % (mask + 1)`.
   */
  function EncodeUnit(codePoint: nat): (r: seq<byte>)
    ensures 1 <= |r| <= UTF8_ENCODED_CHAR_MAX_LEN
  {
    var bits := BitLen(codePoint);
    if bits <= 7 then
      [codePoint % 0x80]
    else if bits <= 11 then
      [0xC0 + (codePoint / 0x40) % 0x20,
       0x80 + codePoint % 0x40]
    else if bits <= 16 then
      if IsSurrogate(codePoint) then
        REPLACEMENT_CHARACTER
      else
        [0xE0 + (codePoint / 0x1000) % 0x10,
         0x80 + (codePoint / 0x40) % 0x40,
         0x80 + codePoint % 0x40]
    else if bits <= 21 && codePoint <= LAST_LEGAL_UNICODE_CODEPOINT then
      [0xF0 + (codePoint / 0x40000) % 0x8,
       0x80 + (codePoint / 0x1000) % 0x40,
       0x80 + (codePoint / 0x40) % 0x40,
       0x80 + codePoint % 0x40]
    else
      REPLACEMENT_CHARACTER
  }

  /** The encoder's output: the units of the code points, in order. */
  function EncodeAll(codePoints: seq<nat>): (r: seq<byte>)
    ensures |codePoints| <= |r| <= UTF8_ENCODED_CHAR_MAX_LEN * |codePoints|
  {
    if codePoints == [] then [] else EncodeUnit(codePoints[0]) + EncodeAll(codePoints[1..])
  }

  lemma {:induction false} EncodeAllAppend(a: seq<nat>, b: seq<nat>)
    ensures EncodeAll(a + b) == EncodeAll(a) + EncodeAll(b)
  {
    if a == [] {
      assert a + b == b;
    } else {
      assert (a + b)[1..] == a[1..] + b;
      EncodeAllAppend(a[1..], b);
    }
  }

  // ---------------------------------------------------------------------
  // Decoder specification

  /**
   * Length of the sequence a lead byte announces: its number of leading
   * 1-bits, at most UTF8_ENCODED_CHAR_MAX_LEN (0 for a byte below 0x80).
   */
  function LeadLength(b: byte): (n: nat)
    ensures n <= UTF8_ENCODED_CHAR_MAX_LEN
    ensures n == 0 <==> b < 0x80
  {
    if b < 0x80 then 0
    else if b < 0xC0 then 1
    else if b < 0xE0 then 2
    else if b < 0xF0 then 3
    else 4
  }

  /** The decoder's resume state (the three fields of the private implementation). */
  datatype DecoderState = DecoderState(acc: nat, len: nat, pos: nat)

  /** A state after one or more bytes, and the code points emitted on the way. */
  datatype Outcome = Outcome(state: DecoderState, emitted: seq<nat>)

  /** The state at the start of every decode call: position and accumulator cleared. */
  function Reset(len: nat): (r: DecoderState)
    ensures r.pos == 0 && r.acc == 0
  {
    DecoderState(0, len, 0)
  }

  /** The decoder's reaction to one byte. */
  function Step(s: DecoderState, b: byte): (r: Outcome)
    ensures |r.emitted| <= 1
  {
    if b < 0x80 then
      Outcome(s, [b])
    else if s.pos == 0 then
      var n := LeadLength(b);
      Outcome(DecoderState(b % Pow2(8 - n), n, 1), [])
    else
      var acc := s.acc * 0x40 + b % 0x40;
      if s.pos == s.len - 1 then
        Outcome(DecoderState(0, s.len, 0), [acc])
      else
        Outcome(DecoderState(acc, s.len, s.pos + 1), [])
  }

  /** The decoder's reaction to a byte sequence, one byte after the other. */
  function Run(s: DecoderState, bytes: seq<byte>): (r: Outcome)
    ensures |r.emitted| <= |bytes|
    decreases |bytes|
  {
    if bytes == [] then
      Outcome(s, [])
    else
      var prev := Run(s, bytes[..|bytes| - 1]);
      var next := Step(prev.state, bytes[|bytes| - 1]);
      Outcome(next.state, prev.emitted + next.emitted)
  }

  /** The code points one decode call returns for its input. */
  function DecodeBytes(encoding: seq<byte>): (r: seq<nat>)
    ensures |r| <= |encoding|
  {
    Run(Reset(0), encoding).emitted
  }

  /**
   * Two states behave the same when they agree on the accumulator and the
   * position, and on the expected length whenever a sequence is in progress.
   */
  predicate SameBehaviour(s: DecoderState, t: DecoderState)
  {
    s.acc == t.acc && s.pos == t.pos && (s.pos != 0 ==> s.len == t.len)
  }

  lemma {:induction false} RunSameBehaviour(s: DecoderState, t: DecoderState, bytes: seq<byte>)
    requires SameBehaviour(s, t)
    ensures SameBehaviour(Run(s, bytes).state, Run(t, bytes).state)
    ensures Run(s, bytes).emitted == Run(t, bytes).emitted
    decreases |bytes|
  {
    if bytes != [] {
      RunSameBehaviour(s, t, bytes[..|bytes| - 1]);
    }
  }

  /** The expected length left over from an earlier call never shows in the output. */
  lemma RunIgnoresStaleLength(len: nat, bytes: seq<byte>)
    ensures Run(Reset(len), bytes).emitted == DecodeBytes(bytes)
  {
    RunSameBehaviour(Reset(len), Reset(0), bytes);
  }

  /** `chunk <<= 1` on an 8-bit value: the top bit falls off. */
  function ShiftLeft(c: byte): (r: byte)
    ensures c < 0x80 ==> r == 2 * c
    ensures c >= 0x80 ==> r == 2 * c - 0x100
  {
    (c * 2) % 0x100
  }

  /** The working copy of a lead byte after k shifts. */
  function ShiftLeftBy(b: byte, k: nat): (r: byte)
  {
    if k == 0 then b else ShiftLeft(ShiftLeftBy(b, k - 1))
  }

  /** Shifting a byte whose top bit is set drops that bit and doubles the rest. */
  lemma ShiftLeftTop(c: byte, top: nat, x: nat)
    requires 0x80 <= top && c == top + x
    ensures ShiftLeft(c) == (2 * top - 0x100) + 2 * x
  {
  }

  /**
   * The working copy of a lead byte after each shift of the counting loop:
   * one leading 1-bit less each time, the payload bits x moving up.
   */
  lemma LeadShifts(b: byte)
    requires b >= 0x80
    ensures LeadLength(b) == 1 ==> ShiftLeftBy(b, 1) == (b - 0x80) * 2
    ensures LeadLength(b) == 2 ==>
      ShiftLeftBy(b, 1) == 0x80 + (b - 0xC0) * 2 && ShiftLeftBy(b, 2) == (b - 0xC0) * 4
    ensures LeadLength(b) == 3 ==>
      ShiftLeftBy(b, 1) == 0xC0 + (b - 0xE0) * 2 && ShiftLeftBy(b, 2) == 0x80 + (b - 0xE0) * 4 &&
      ShiftLeftBy(b, 3) == (b - 0xE0) * 8
    ensures LeadLength(b) == 4 ==>
      ShiftLeftBy(b, 1) == 0xE0 + (b - 0xF0) * 2 && ShiftLeftBy(b, 2) == 0xC0 + (b - 0xF0) * 4 &&
      ShiftLeftBy(b, 3) == 0x80 + (b - 0xF0) * 8 && ShiftLeftBy(b, 4) == (b - 0xF0) * 16
  {
    var s0, s1, s2, s3 := ShiftLeftBy(b, 0), ShiftLeftBy(b, 1), ShiftLeftBy(b, 2), ShiftLeftBy(b, 3);
    if b < 0xC0 {
      ShiftLeftTop(s0, 0x80, b - 0x80);
    } else if b < 0xE0 {
      ShiftLeftTop(s0, 0xC0, b - 0xC0);
      ShiftLeftTop(s1, 0x80, (b - 0xC0) * 2);
    } else if b < 0xF0 {
      ShiftLeftTop(s0, 0xE0, b - 0xE0);
      ShiftLeftTop(s1, 0xC0, (b - 0xE0) * 2);
      ShiftLeftTop(s2, 0x80, (b - 0xE0) * 4);
    } else {
      ShiftLeftTop(s0, 0xF0, b - 0xF0);
      ShiftLeftTop(s1, 0xE0, (b - 0xF0) * 2);
      ShiftLeftTop(s2, 0xC0, (b - 0xF0) * 4);
      ShiftLeftTop(s3, 0x80, (b - 0xF0) * 8);
    }
  }

  /**
   * The counting loop's test: after k < 4 shifts, k not past the leading
   * 1-bits, the top bit is set exactly when more leading 1-bits remain.
   */
  lemma LeadLoopTest(b: byte, k: nat)
    requires b >= 0x80
    requires k <= LeadLength(b) && k < UTF8_ENCODED_CHAR_MAX_LEN
    ensures ShiftLeftBy(b, k) >= 0x80 <==> k < LeadLength(b)
  {
    LeadShifts(b);
  }

  /** Shifting the counted 1-bits out and back keeps the low 8 - n bits of the lead byte. */
  lemma LeadPayload(b: byte)
    requires b >= 0x80
    ensures ShiftLeftBy(b, LeadLength(b)) / Pow2(LeadLength(b)) == b % Pow2(8 - LeadLength(b))
  {
    LeadShifts(b);
    var n := LeadLength(b);
    if n == 1 {
      assert Pow2(1) == 2 && Pow2(7) == 0x80;
      assert b % 0x80 == b - 0x80;
    } else if n == 2 {
      assert Pow2(2) == 4 && Pow2(6) == 0x40;
      assert b % 0x40 == b - 0xC0;
    } else if n == 3 {
      assert Pow2(3) == 8 && Pow2(5) == 0x20;
      assert b % 0x20 == b - 0xE0;
    } else {
      assert Pow2(4) == 16;
      assert b % 0x10 == b - 0xF0;
    }
  }

  /**
   * Where the counting loop stops, a lead byte starts a sequence of
   * LeadLength(b) bytes holding the bits that are left.
   */
  lemma LeadStepState(s: DecoderState, b: byte, n: nat)
    requires b >= 0x80 && s.pos == 0
    requires n <= LeadLength(b)
    requires ShiftLeftBy(b, n) < 0x80 || n == UTF8_ENCODED_CHAR_MAX_LEN
    ensures n == LeadLength(b)
    ensures Step(s, b) == Outcome(DecoderState(ShiftLeftBy(b, n) / Pow2(n), n, 1), [])
  {
    if n < UTF8_ENCODED_CHAR_MAX_LEN {
      LeadLoopTest(b, n);
    }
    LeadPayload(b);
  }

  /** Decoding one more byte is one more step of the state machine. */
  lemma RunSnoc(s: DecoderState, bytes: seq<byte>, i: nat)
    requires i < |bytes|
    ensures Run(s, bytes[..i + 1]) ==
      Outcome(Step(Run(s, bytes[..i]).state, bytes[i]).state,
              Run(s, bytes[..i]).emitted + Step(Run(s, bytes[..i]).state, bytes[i]).emitted)
  {
    assert bytes[..i + 1][..i] == bytes[..i];
  }

  // ---------------------------------------------------------------------
  // The codec object

  class UTF8 {
    /** Value accumulated from the bytes of the current sequence. */
    var unicodeCodePointValue: nat
    /** Total length of the current sequence, set by its lead byte. */
    var utf8RepresentationLen: nat
    /** Number of bytes of the current sequence consumed so far. */
    var encodingPosition: nat

    function State(): (r: DecoderState)
      reads this
    {
      DecoderState(unicodeCodePointValue, utf8RepresentationLen, encodingPosition)
    }

    /** A fresh codec has no sequence in progress; the expected length is left unset. */
    constructor ()
      ensures unicodeCodePointValue == 0 && encodingPosition == 0
    {
      unicodeCodePointValue := 0;
      encodingPosition := 0;
    }

    /** One round of the encoding loop: appends the bytes of one code point. */
    method AppendEncoded(encode0: seq<byte>, codePoint: nat) returns (encode: seq<byte>)
      ensures encode == encode0 + EncodeUnit(codePoint)
    {
      encode := encode0;
      var bitsForCodePoint := Log2n(codePoint);
      ghost var unit := EncodeUnit(codePoint);
      if bitsForCodePoint <= 7 {
        encode := encode + [codePoint % 0x80];
        assert encode == encode0 + unit;
      } else if bitsForCodePoint <= 11 {
        encode := encode + [0xC0 + (codePoint / 0x40) % 0x20];
        encode := encode + [0x80 + codePoint % 0x40];
        assert encode == encode0 + unit;
      } else if bitsForCodePoint <= 16 {
        if FIRST_SURROGATE <= codePoint && codePoint <= LAST_SURROGATE {
          encode := encode + REPLACEMENT_CHARACTER;
          assert encode == encode0 + unit;
        } else {
          encode := encode + [0xE0 + (codePoint / 0x1000) % 0x10];
          encode := encode + [0x80 + (codePoint / 0x40) % 0x40];
          encode := encode + [0x80 + codePoint % 0x40];
          assert encode == encode0 + unit;
        }
      } else if bitsForCodePoint <= 21 && codePoint <= LAST_LEGAL_UNICODE_CODEPOINT {
        encode := encode + [0xF0 + (codePoint / 0x40000) % 0x8];
        encode := encode + [0x80 + (codePoint / 0x1000) % 0x40];
        encode := encode + [0x80 + (codePoint / 0x40) % 0x40];
        encode := encode + [0x80 + codePoint % 0x40];
        assert encode == encode0 + unit;
      } else {
        encode := encode + REPLACEMENT_CHARACTER;
        assert encode == encode0 + unit;
      }
    }

    /** Encodes the code points one after the other; reads no field. */
    method Encode(codePoints: seq<nat>) returns (encode: seq<byte>)
      ensures encode == EncodeAll(codePoints)
    {
      encode := [];
      for i := 0 to |codePoints|
        invariant encode == EncodeAll(codePoints[..i])
      {
        var codePoint := codePoints[i];
        encode := AppendEncoded(encode, codePoint);
        assert codePoints[..i + 1] == codePoints[..i] + [codePoint];
        EncodeAllAppend(codePoints[..i], [codePoint]);
      }
      assert codePoints[..|codePoints|] == codePoints;
    }

    /**
     * Decodes one buffer. Position and accumulator are cleared first, so a
     * sequence cut at the end of the previous call is not resumed.
     */
    method Decode(encoding: seq<byte>) returns (output: seq<nat>)
      modifies this
      ensures output == DecodeBytes(encoding)
      ensures State() == Run(Reset(old(utf8RepresentationLen)), encoding).state
    {
      output := [];
      unicodeCodePointValue := 0;
      encodingPosition := 0;
      ghost var start := State();
      for i := 0 to |encoding|
        invariant Outcome(State(), output) == Run(start, encoding[..i])
      {
        ghost var before := State();
        ghost var emittedBefore := output;
        var chunk := encoding[i];
        if chunk < 0x80 {
          // the top bit is clear: a one-byte code point, state untouched
          output := output + [chunk];
        } else if encodingPosition == 0 {
          // a lead byte: count its leading 1-bits by shifting it left
          utf8RepresentationLen := 0;
          while chunk >= 0x80 && utf8RepresentationLen < UTF8_ENCODED_CHAR_MAX_LEN
            modifies this`utf8RepresentationLen
            invariant utf8RepresentationLen <= LeadLength(encoding[i])
            invariant chunk == ShiftLeftBy(encoding[i], utf8RepresentationLen)
            decreases UTF8_ENCODED_CHAR_MAX_LEN - utf8RepresentationLen
          {
            LeadLoopTest(encoding[i], utf8RepresentationLen);
            utf8RepresentationLen := utf8RepresentationLen + 1;
            chunk := ShiftLeft(chunk);
          }
          LeadStepState(before, encoding[i], utf8RepresentationLen);
          unicodeCodePointValue := chunk / Pow2(utf8RepresentationLen);
          encodingPosition := encodingPosition + 1;
        } else {
          // a continuation byte: its low six bits, whatever its top bits are
          unicodeCodePointValue := unicodeCodePointValue * 0x40 + chunk % 0x40;
          if encodingPosition == utf8RepresentationLen - 1 {
            output := output + [unicodeCodePointValue];
            unicodeCodePointValue := 0;
            encodingPosition := 0;
          } else {
            encodingPosition := encodingPosition + 1;
          }
        }
        assert Outcome(State(), output) ==
          Outcome(Step(before, encoding[i]).state, emittedBefore + Step(before, encoding[i]).emitted);
        RunSnoc(start, encoding, i);
      }
      assert encoding[..|encoding|] == encoding;
      RunIgnoresStaleLength(old(utf8RepresentationLen), encoding);
    }
  }
}
