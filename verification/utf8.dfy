/**
 * Strict UTF-8 well-formedness, as applied by Python's `str(payload, 'utf-8')`:
 * the well-formed byte sequences of Table 3-7 of the Unicode Standard
 * (chapter 3, section 3.9). Overlong forms, encoded surrogates and values
 * above U+10FFFF are rejected.
 */
module Utf8 {

  newtype byte = b: int | 0 <= b < 256

  predicate IsContinuation(b: byte) {
    0x80 <= b <= 0xBF
  }

  /**
   * Length of the well-formed code-unit sequence at the start of `b`,
   * or 0 when `b` is empty or does not start with one.
   */
  function LeadingSequenceLength(b: seq<byte>): (n: nat)
    ensures n <= |b|
    ensures n <= 4
  {
    if |b| == 0 then 0
    else if b[0] <= 0x7F then 1
    else if 0xC2 <= b[0] <= 0xDF then
      if |b| >= 2 && IsContinuation(b[1]) then 2 else 0
    else if b[0] == 0xE0 then
      if |b| >= 3 && 0xA0 <= b[1] <= 0xBF && IsContinuation(b[2]) then 3 else 0
    else if 0xE1 <= b[0] <= 0xEC || 0xEE <= b[0] <= 0xEF then
      if |b| >= 3 && IsContinuation(b[1]) && IsContinuation(b[2]) then 3 else 0
    else if b[0] == 0xED then
      if |b| >= 3 && 0x80 <= b[1] <= 0x9F && IsContinuation(b[2]) then 3 else 0
    else if b[0] == 0xF0 then
      if |b| >= 4 && 0x90 <= b[1] <= 0xBF && IsContinuation(b[2]) && IsContinuation(b[3]) then 4 else 0
    else if 0xF1 <= b[0] <= 0xF3 then
      if |b| >= 4 && IsContinuation(b[1]) && IsContinuation(b[2]) && IsContinuation(b[3]) then 4 else 0
    else if b[0] == 0xF4 then
      if |b| >= 4 && 0x80 <= b[1] <= 0x8F && IsContinuation(b[2]) && IsContinuation(b[3]) then 4 else 0
    else 0
  }

  /** `b` splits into well-formed code-unit sequences with nothing left over. */
  predicate IsValidUtf8(b: seq<byte>)
    decreases |b|
  {
    |b| == 0 || (LeadingSequenceLength(b) > 0 && IsValidUtf8(b[LeadingSequenceLength(b)..]))
  }

  /** A Unicode scalar value: a code point that is not a surrogate. */
  predicate IsScalarValue(c: int) {
    0 <= c < 0xD800 || 0xE000 <= c <= 0x10FFFF
  }

  /** The UTF-8 encoding of one scalar value. */
  function EncodeScalar(c: int): (bs: seq<byte>)
    requires IsScalarValue(c)
  {
    if c < 0x80 then [c as byte]
    else if c < 0x800 then [(0xC0 + c / 64) as byte, (0x80 + c % 64) as byte]
    else if c < 0x10000 then
      [(0xE0 + c / 4096) as byte, (0x80 + (c / 64) % 64) as byte, (0x80 + c % 64) as byte]
    else
      [(0xF0 + c / 262144) as byte, (0x80 + (c / 4096) % 64) as byte,
       (0x80 + (c / 64) % 64) as byte, (0x80 + c % 64) as byte]
  }

  /** The UTF-8 encoding of a sequence of scalar values. */
  function Encode(cs: seq<int>): seq<byte>
    requires forall i :: 0 <= i < |cs| ==> IsScalarValue(cs[i])
  {
    if |cs| == 0 then [] else EncodeScalar(cs[0]) + Encode(cs[1..])
  }

  /** The encoding of one scalar value is read back as exactly one well-formed sequence. */
  lemma EncodeScalarIsOneSequence(c: int, rest: seq<byte>)
    requires IsScalarValue(c)
    ensures LeadingSequenceLength(EncodeScalar(c) + rest) == |EncodeScalar(c)|
  {
    var bs := EncodeScalar(c) + rest;
    if c < 0x80 {
    } else if c < 0x800 {
      assert 2 <= c / 64 < 32;
    } else if c < 0x10000 {
      assert 0 <= c / 4096 < 16;
      if c < 0x1000 {
        assert 32 <= c / 64 < 64;
      } else if 0xD000 <= c < 0xD800 {
        assert c / 4096 == 13;
        assert (c / 64) % 64 < 32;
      }
    } else {
      assert 0 <= c / 262144 <= 4;
      if c < 0x40000 {
        assert 16 <= (c / 4096) % 64;
      } else if c >= 0x100000 {
        assert c / 262144 == 4;
        assert (c / 4096) % 64 < 16;
      }
    }
  }

  /** Every sequence of scalar values encodes to a payload the decoder accepts. */
  lemma {:induction false} EncodeIsValid(cs: seq<int>)
    requires forall i :: 0 <= i < |cs| ==> IsScalarValue(cs[i])
    ensures IsValidUtf8(Encode(cs))
  {
    if |cs| > 0 {
      var head := EncodeScalar(cs[0]);
      var tail := Encode(cs[1..]);
      EncodeScalarIsOneSequence(cs[0], tail);
      assert (head + tail)[|head|..] == tail;
      EncodeIsValid(cs[1..]);
    }
  }
}
