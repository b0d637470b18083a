/** Raw bytes and UTF-8, as Python's `str.encode('utf-8')` and `bytes.decode('utf-8')` see them.
    A Dafny `char` is a Unicode scalar value, so encoding never fails (Python's strict encoder
    only fails on lone surrogates, which a `char` cannot hold). */
module Utf8 {

  type Byte = b: int | 0 <= b < 256

  /** Every byte is 7-bit ASCII. */
  predicate IsAscii(b: seq<Byte>) {
    forall i :: 0 <= i < |b| ==> b[i] < 0x80
  }

  predicate IsScalar(n: int) {
    0 <= n < 0xD800 || 0xE000 <= n < 0x11_0000
  }

  /** The one- to four-byte encoding of a single code point: the lead byte carries the length
      and the high bits, each continuation byte six more bits. */
  function EncodeChar(c: char): (r: seq<Byte>)
    ensures 1 <= |r| <= 4 && SequenceLength(r[0]) == |r|
  {
    var n := c as int;
    var q1, r0 := n / 64, n % 64;
    var q2, r1 := q1 / 64, q1 % 64;
    var q3, r2 := q2 / 64, q2 % 64;
    if n < 0x80 then [n]
    else if n < 0x800 then [0xC0 + q1, 0x80 + r0]
    else if n < 0x1_0000 then [0xE0 + q2, 0x80 + r1, 0x80 + r0]
    else [0xF0 + q3, 0x80 + r2, 0x80 + r1, 0x80 + r0]
  }

  /** `str.encode('utf-8')`: the encodings of the characters, one after another, one to four
      bytes each. */
  function Encode(s: string): (r: seq<Byte>)
    ensures |s| <= |r| <= 4 * |s|
  {
    if s == [] then [] else EncodeChar(s[0]) + Encode(s[1..])
  }

  /** How many bytes the sequence that starts with lead byte `b` has; 0 for a byte that no
      well-formed sequence starts with (a continuation byte, 0xC0, 0xC1 or 0xF5 and above). */
  function SequenceLength(b: Byte): nat {
    if b < 0x80 then 1
    else if 0xC2 <= b < 0xE0 then 2
    else if 0xE0 <= b < 0xF0 then 3
    else if 0xF0 <= b <= 0xF4 then 4
    else 0
  }

  predicate IsContinuation(b: Byte) {
    0x80 <= b < 0xC0
  }

  /** The smallest code point that needs `k` bytes; a smaller one would be an overlong form. */
  function MinCodePoint(k: nat): int {
    if k <= 1 then 0 else if k == 2 then 0x80 else if k == 3 then 0x800 else 0x1_0000
  }

  /** The code point spelled by one multi-byte sequence, lead byte and payload bits. */
  function CodePoint(b: seq<Byte>): int
    requires 1 <= |b| <= 4
  {
    var x0 := b[0] as int - [0, 0, 0xC0, 0xE0, 0xF0][|b|];
    if |b| == 1 then x0
    else if |b| == 2 then x0 * 64 + Payload(b[1])
    else if |b| == 3 then (x0 * 64 + Payload(b[1])) * 64 + Payload(b[2])
    else ((x0 * 64 + Payload(b[1])) * 64 + Payload(b[2])) * 64 + Payload(b[3])
  }

  /** The six low bits of a continuation byte. */
  function Payload(b: Byte): int {
    b as int - 0x80
  }

  /** `b` is one complete, shortest-form sequence of a Unicode scalar value. */
  predicate IsChunk(b: seq<Byte>) {
    && 1 <= |b| <= 4
    && SequenceLength(b[0]) == |b|
    && (forall i :: 1 <= i < |b| ==> IsContinuation(b[i]))
    && MinCodePoint(|b|) <= CodePoint(b)
    && IsScalar(CodePoint(b))
  }

  /** What `bytes.decode('utf-8')` accepts without raising. */
  predicate WellFormed(b: seq<Byte>)
    decreases |b|
  {
    b == [] ||
    var k := SequenceLength(b[0]);
    1 <= k <= |b| && IsChunk(b[..k]) && WellFormed(b[k..])
  }

  /** `bytes.decode('utf-8')` on bytes it accepts: one character per sequence of one to four
      bytes. */
  function Decode(b: seq<Byte>): (s: string)
    requires WellFormed(b)
    ensures |s| <= |b| <= 4 * |s|
    decreases |b|
  {
    if b == [] then []
    else
      var k := SequenceLength(b[0]);
      [CodePoint(b[..k]) as char] + Decode(b[k..])
  }

  lemma DivMod64(y: int, x: int)
    requires 0 <= x < 64
    ensures (y * 64 + x) / 64 == y && (y * 64 + x) % 64 == x
  {
  }

  lemma EncodeCharIsChunk(c: char)
    ensures IsChunk(EncodeChar(c)) && CodePoint(EncodeChar(c)) == c as int
  {
    var n := c as int;
    var q1, r0 := n / 64, n % 64;
    var q2, r1 := q1 / 64, q1 % 64;
    var q3, r2 := q2 / 64, q2 % 64;
    assert n == q1 * 64 + r0 && q1 == q2 * 64 + r1 && q2 == q3 * 64 + r2;
  }

  lemma ChunkEncodesItself(b: seq<Byte>)
    requires IsChunk(b)
    ensures EncodeChar(CodePoint(b) as char) == b
  {
    var n := CodePoint(b);
    if |b| == 2 {
      DivMod64(b[0] - 0xC0, Payload(b[1]));
    } else if |b| == 3 {
      var y := b[0] - 0xE0;
      DivMod64(y * 64 + Payload(b[1]), Payload(b[2]));
      DivMod64(y, Payload(b[1]));
    } else if |b| == 4 {
      var y := b[0] - 0xF0;
      DivMod64((y * 64 + Payload(b[1])) * 64 + Payload(b[2]), Payload(b[3]));
      DivMod64(y * 64 + Payload(b[1]), Payload(b[2]));
      DivMod64(y, Payload(b[1]));
    }
  }

  /** Everything the encoder produces can be decoded. */
  lemma {:induction false} EncodeWellFormed(s: string)
    ensures WellFormed(Encode(s))
  {
    if s != [] {
      var e, rest := EncodeChar(s[0]), Encode(s[1..]);
      EncodeCharIsChunk(s[0]);
      EncodeWellFormed(s[1..]);
      assert Encode(s)[..|e|] == e;
      assert Encode(s)[|e|..] == rest;
    }
  }

  /** Decoding undoes encoding, so two different texts never share their bytes. */
  lemma {:induction false} DecodeEncode(s: string)
    ensures WellFormed(Encode(s)) && Decode(Encode(s)) == s
  {
    EncodeWellFormed(s);
    if s != [] {
      var e := EncodeChar(s[0]);
      EncodeCharIsChunk(s[0]);
      assert Encode(s)[..|e|] == e;
      assert Encode(s)[|e|..] == Encode(s[1..]);
      DecodeEncode(s[1..]);
    }
  }

  /** Encoding undoes decoding on every well-formed byte string. */
  lemma {:induction false} EncodeDecode(b: seq<Byte>)
    requires WellFormed(b)
    ensures Encode(Decode(b)) == b
    decreases |b|
  {
    if b != [] {
      var k := SequenceLength(b[0]);
      ChunkEncodesItself(b[..k]);
      EncodeDecode(b[k..]);
      assert b == b[..k] + b[k..];
    }
  }

  lemma EncodeInjective(s: string, t: string)
    requires Encode(s) == Encode(t)
    ensures s == t
  {
    DecodeEncode(s);
    DecodeEncode(t);
  }

  /** ASCII bytes are well-formed and decode one character per byte, each with the byte's code. */
  lemma {:induction false} AsciiDecode(b: seq<Byte>)
    requires IsAscii(b)
    ensures WellFormed(b) && |Decode(b)| == |b|
    ensures forall i :: 0 <= i < |b| ==> Decode(b)[i] as int == b[i]
    decreases |b|
  {
    if b != [] {
      assert b[..1] == [b[0]];
      AsciiDecode(b[1..]);
    }
  }
}
