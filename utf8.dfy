/**
 * QString::toUtf8, the encoding the session uses for every command it
 * writes to the serial port.
 */
module Utf8 {
  import opened Sequences
  import opened Text

  /** A byte that continues a multi-byte sequence: 10xxxxxx. */
  predicate IsContinuation(b: byte) {
    0x80 <= b < 0xC0
  }

  /** The UTF-8 encoding of one Unicode scalar value. */
  function EncodeChar(c: char): (b: seq<byte>)
    ensures 1 <= |b| <= 4
    ensures |b| == 1 <==> c as int < 0x80
    ensures |b| == 2 <==> 0x80 <= c as int < 0x800
    ensures |b| == 3 <==> 0x800 <= c as int < 0x10000
    ensures b[0] < 0x80 <==> |b| == 1
    ensures forall i :: 1 <= i < |b| ==> IsContinuation(b[i])
    ensures !IsContinuation(b[0])
  {
    var n := c as int;
    if n < 0x80 then [n as byte]
    else if n < 0x800 then [(0xC0 + n / 64) as byte, (0x80 + n % 64) as byte]
    else if n < 0x10000 then
      [(0xE0 + n / 4096) as byte, (0x80 + n / 64 % 64) as byte, (0x80 + n % 64) as byte]
    else
      [(0xF0 + n / 262144) as byte, (0x80 + n / 4096 % 64) as byte,
       (0x80 + n / 64 % 64) as byte, (0x80 + n % 64) as byte]
  }

  /** The value a well-formed one-character sequence stands for. */
  function DecodeChar(b: seq<byte>): int
    requires 1 <= |b| <= 4
  {
    if |b| == 1 then b[0] as int
    else if |b| == 2 then (b[0] as int - 0xC0) * 64 + (b[1] as int - 0x80)
    else if |b| == 3 then (b[0] as int - 0xE0) * 4096 + (b[1] as int - 0x80) * 64 + (b[2] as int - 0x80)
    else (b[0] as int - 0xF0) * 262144 + (b[1] as int - 0x80) * 4096 + (b[2] as int - 0x80) * 64 + (b[3] as int - 0x80)
  }

  /** Every character's encoding decodes back to that character. */
  lemma DecodeEncodeChar(c: char)
    ensures DecodeChar(EncodeChar(c)) == c as int
  {
    var n := c as int;
    if n >= 0x10000 {
      SixBitGroups(n);
    } else if n >= 0x800 {
      SixBitGroups(n);
    }
  }

  /** `n` in groups of six bits, as the multi-byte forms lay it out. */
  lemma SixBitGroups(n: nat)
    ensures n == n / 64 * 64 + n % 64
    ensures n / 64 == n / 4096 * 64 + n / 64 % 64
    ensures n / 4096 == n / 262144 * 64 + n / 4096 % 64
    ensures n == n / 4096 * 4096 + n / 64 % 64 * 64 + n % 64
    ensures n == n / 262144 * 262144 + n / 4096 % 64 * 4096 + n / 64 % 64 * 64 + n % 64
  {
    var q1, q2 := n / 64, n / 4096;
    assert q2 == q1 / 64;
    assert n / 262144 == q2 / 64;
  }

  function ToUtf8(s: string): (b: seq<byte>)
    ensures |s| <= |b| <= 4 * |s|
  {
    if s == [] then [] else ToUtf8(s[..|s| - 1]) + EncodeChar(s[|s| - 1])
  }

  /** The encoding of a concatenation is the concatenation of the encodings, character by character. */
  lemma {:induction false} ToUtf8Append(s: string, t: string)
    ensures ToUtf8(s + t) == ToUtf8(s) + ToUtf8(t)
    decreases |t|
  {
    if t == [] {
      assert s + t == s;
    } else {
      var init, last := t[..|t| - 1], t[|t| - 1];
      ToUtf8Append(s, init);
      SnocStep(s, init, last, t);
    }
  }

  /** One more character at the end adds its encoding at the end, on both sides of the equation. */
  lemma SnocStep(s: string, init: string, last: char, t: string)
    requires t == init + [last]
    requires ToUtf8(s + init) == ToUtf8(s) + ToUtf8(init)
    ensures ToUtf8(s + t) == ToUtf8(s) + ToUtf8(t)
  {
    Associate(s, init, [last]);
    ToUtf8Snoc(s + t, s + init, last);
    ToUtf8Snoc(t, init, last);
    Associate(ToUtf8(s), ToUtf8(init), EncodeChar(last));
  }

  lemma ToUtf8Snoc(u: string, s: string, c: char)
    requires u == s + [c]
    ensures ToUtf8(u) == ToUtf8(s) + EncodeChar(c)
  {
    assert u[..|s|] == s;
  }

  /** Every character is below 0x80. */
  predicate IsAscii(s: string) {
    forall c | c in s :: c as int < 0x80
  }

  /**
   * Text made of ASCII characters encodes to one byte per character, and
   * reading those bytes back as Latin-1 gives the text again.
   */
  lemma {:induction false} AsciiUtf8(s: string)
    requires IsAscii(s)
    ensures |ToUtf8(s)| == |s|
    ensures FromLatin1(ToUtf8(s)) == s
  {
    if s != [] {
      assert s[|s| - 1] in s;
      var init := s[..|s| - 1];
      assert IsAscii(init) by {
        forall c | c in init
          ensures c in s
        {
          var j :| 0 <= j < |init| && init[j] == c;
          assert s[j] == c;
        }
      }
      AsciiUtf8(init);
      var b := ToUtf8(s);
      assert b == ToUtf8(init) + [(s[|s| - 1] as int) as byte];
      forall i | 0 <= i < |s|
        ensures FromLatin1(b)[i] == s[i]
      {
        if i < |init| {
          assert b[i] == ToUtf8(init)[i];
          assert FromLatin1(ToUtf8(init))[i] == init[i];
        }
      }
    }
  }

  /** Text holding a character outside ASCII encodes to more bytes than characters. */
  lemma {:induction false} NonAsciiLonger(s: string, i: nat)
    requires i < |s| && s[i] as int >= 0x80
    ensures |ToUtf8(s)| > |s|
  {
    var init := s[..|s| - 1];
    if i < |s| - 1 {
      assert init[i] == s[i];
      NonAsciiLonger(init, i);
    }
  }
}
