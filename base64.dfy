/** Base64 over bytes, with the standard alphabet and `=` padding of section 4 of RFC 4648,
    as Python's `base64.b64encode` and `base64.b64decode` compute it. */
module Base64 {
  import opened Utf8

  /** The padding byte `=`. */
  const Pad: Byte := 61

  /** The alphabet of section 4 of RFC 4648: `A`-`Z`, `a`-`z`, `0`-`9`, `+`, `/`. */
  function Letter(i: int): (c: Byte)
    requires 0 <= i < 64
    ensures IsLetter(c) && Index(c) == i
  {
    if i < 26 then 65 + i
    else if i < 52 then 97 + (i - 26)
    else if i < 62 then 48 + (i - 52)
    else if i == 62 then 43
    else 47
  }

  predicate IsLetter(c: Byte) {
    65 <= c <= 90 || 97 <= c <= 122 || 48 <= c <= 57 || c == 43 || c == 47
  }

  /** The six-bit value a letter stands for. */
  function Index(c: Byte): (i: int)
    requires IsLetter(c)
    ensures 0 <= i < 64
  {
    if 65 <= c <= 90 then c - 65
    else if 97 <= c <= 122 then c - 97 + 26
    else if 48 <= c <= 57 then c - 48 + 52
    else if c == 43 then 62
    else 63
  }

  /** A group of four letters, or the final group with one or two `=`. */
  predicate IsGroup(q: seq<Byte>, last: bool) {
    && |q| == 4 && IsLetter(q[0]) && IsLetter(q[1])
    && ((IsLetter(q[2]) && IsLetter(q[3]))
        || (last && IsLetter(q[2]) && q[3] == Pad)
        || (last && q[2] == Pad && q[3] == Pad))
  }

  /** Every byte of `q` is a letter or `=`. */
  predicate InAlphabet(q: seq<Byte>) {
    forall i :: 0 <= i < |q| ==> IsLetter(q[i]) || q[i] == Pad
  }

  lemma Split4(y: int, x: int)
    requires 0 <= x < 4
    ensures (y * 4 + x) / 4 == y && (y * 4 + x) % 4 == x
  {
  }

  lemma Split16(y: int, x: int)
    requires 0 <= x < 16
    ensures (y * 16 + x) / 16 == y && (y * 16 + x) % 16 == x
  {
  }

  /** The three bytes one group of four letters stands for. */
  function DecodeGroup(q: seq<Byte>): (r: seq<Byte>)
    requires IsGroup(q, true)
    ensures |r| == if q[2] == Pad then 1 else if q[3] == Pad then 2 else 3
  {
    var i0, i1 := Index(q[0]), Index(q[1]);
    var b0 := i0 * 4 + i1 / 16;
    if q[2] == Pad then [b0]
    else
      var i2 := Index(q[2]);
      var b1 := (i1 % 16) * 16 + i2 / 4;
      if q[3] == Pad then [b0, b1]
      else [b0, b1, (i2 % 4) * 64 + Index(q[3])]
  }

  /** One byte: its high six bits, its low two bits then four zero bits, and `==`. */
  function EncodeOne(x0: Byte): (r: seq<Byte>)
    ensures IsGroup(r, true) && InAlphabet(r) && DecodeGroup(r) == [x0]
  {
    var i0, i1 := x0 / 4, (x0 % 4) * 16;
    Split4(i0, x0 % 4);
    Split16(x0 % 4, 0);
    [Letter(i0), Letter(i1), Pad, Pad]
  }

  /** Two bytes: sixteen bits and two zero bits in three letters, then `=`. */
  function EncodeTwo(x0: Byte, x1: Byte): (r: seq<Byte>)
    ensures IsGroup(r, true) && InAlphabet(r) && DecodeGroup(r) == [x0, x1]
  {
    var i0, i1, i2 := x0 / 4, (x0 % 4) * 16 + x1 / 16, (x1 % 16) * 4;
    Split4(i0, x0 % 4);
    Split16(x0 % 4, x1 / 16);
    Split16(x1 / 16, x1 % 16);
    Split4(x1 % 16, 0);
    [Letter(i0), Letter(i1), Letter(i2), Pad]
  }

  /** Three bytes: twenty-four bits in four letters. */
  function EncodeThree(x0: Byte, x1: Byte, x2: Byte): (r: seq<Byte>)
    ensures IsGroup(r, false) && InAlphabet(r) && DecodeGroup(r) == [x0, x1, x2]
  {
    var i0, i1, i2, i3 := x0 / 4, (x0 % 4) * 16 + x1 / 16, (x1 % 16) * 4 + x2 / 64, x2 % 64;
    Split4(i0, x0 % 4);
    Split16(x0 % 4, x1 / 16);
    Split16(x1 / 16, x1 % 16);
    Split4(x1 % 16, x2 / 64);
    DivMod64(x2 / 64, x2 % 64);
    [Letter(i0), Letter(i1), Letter(i2), Letter(i3)]
  }

  /** `b64encode`: groups of three bytes become four letters; a final one or two bytes become
      two or three letters and two or one `=`. */
  function Encode(b: seq<Byte>): (r: seq<Byte>)
    ensures |r| == 4 * ((|b| + 2) / 3)
    decreases |b|
  {
    if |b| == 0 then []
    else if |b| == 1 then EncodeOne(b[0])
    else if |b| == 2 then EncodeTwo(b[0], b[1])
    else EncodeThree(b[0], b[1], b[2]) + Encode(b[3..])
  }

  /** The canonical Base64 texts: whole groups of four letters, padding only in the last one.
      `b64decode` accepts more (it skips bytes outside the alphabet and stops after the first
      padded group); on this subset it agrees with `Decode`. */
  predicate IsBase64(s: seq<Byte>)
    decreases |s|
  {
    s == [] || (|s| >= 4 && IsGroup(s[..4], |s| == 4) && IsBase64(s[4..]))
  }

  /** `b64decode` on a canonical Base64 text: each group gives three bytes, less one per `=`. */
  function Decode(s: seq<Byte>): (r: seq<Byte>)
    requires IsBase64(s)
    decreases |s|
  {
    if s == [] then [] else DecodeGroup(s[..4]) + Decode(s[4..])
  }

  /** The encoding is well-formed, has 4 * ceil(n / 3) bytes and uses only the alphabet and `=`. */
  lemma {:induction false} EncodeShape(b: seq<Byte>)
    ensures IsBase64(Encode(b)) && InAlphabet(Encode(b))
    ensures |Encode(b)| == 4 * ((|b| + 2) / 3)
    decreases |b|
  {
    var r := Encode(b);
    if 1 <= |b| <= 2 {
      assert r[..4] == r && r[4..] == [];
    } else if |b| >= 3 {
      var head, tail := EncodeThree(b[0], b[1], b[2]), Encode(b[3..]);
      EncodeShape(b[3..]);
      assert r[..4] == head && r[4..] == tail;
      forall i | 0 <= i < |r| ensures IsLetter(r[i]) || r[i] == Pad {
        if i >= 4 { assert r[i] == tail[i - 4]; }
      }
    }
  }

  /** The encoding holds only ASCII bytes, so it is also a `str`. */
  lemma EncodeIsAscii(b: seq<Byte>)
    ensures IsAscii(Encode(b))
  {
    EncodeShape(b);
  }

  /** Decoding recovers exactly the bytes that were encoded. */
  lemma {:induction false} DecodeEncode(b: seq<Byte>)
    ensures IsBase64(Encode(b)) && Decode(Encode(b)) == b
    decreases |b|
  {
    EncodeShape(b);
    var r := Encode(b);
    if |b| == 1 {
      assert r[..4] == r && r[4..] == [] && [b[0]] == b;
    } else if |b| == 2 {
      assert r[..4] == r && r[4..] == [] && [b[0], b[1]] == b;
    } else if |b| >= 3 {
      var head, tail := EncodeThree(b[0], b[1], b[2]), Encode(b[3..]);
      assert r[..4] == head && r[4..] == tail;
      DecodeEncode(b[3..]);
      assert b == [b[0], b[1], b[2]] + b[3..];
    }
  }
}
