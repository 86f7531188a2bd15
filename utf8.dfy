/** UTF-8 as Java applies it to strings: `getBytes("UTF-8")` on a one-unit
    string and `new String(bytes, "UTF-8")`. */
module Utf8 {
  import opened Base

  /** A high or low surrogate: half of a UTF-16 pair. */
  predicate IsSurrogate(u: CodeUnit) {
    0xD800 <= u <= 0xDFFF
  }

  /** A byte of the form 10xxxxxx. */
  predicate IsContinuation(b: Byte) {
    0x80 <= b < 0xC0
  }

  /** The UTF-8 bytes of the one-unit string `u`. A lone surrogate has no
      UTF-8 form, and Java's encoder writes its replacement byte `?` (0x3F). */
  function EncodeUnit(u: CodeUnit): (b: seq<Byte>)
    ensures 1 <= |b| <= 3
    ensures |b| == 1 <==> u < 0x80 || IsSurrogate(u)
    ensures |b| == 2 <==> 0x80 <= u < 0x800
    ensures IsSurrogate(u) ==> b == [0x3F]
  {
    if u < 0x80 then [u]
    else if u < 0x800 then [0xC0 + u / 64, 0x80 + u % 64]
    else if IsSurrogate(u) then [0x3F]
    else [0xE0 + u / 4096, 0x80 + (u / 64) % 64, 0x80 + u % 64]
  }

  /** The bytes of each code unit, one unit after another. */
  function EncodeUnits(s: Str): seq<Byte> {
    if s == [] then [] else EncodeUnit(s[0]) + EncodeUnits(s[1..])
  }

  /** The code point of a well-formed three-byte sequence. */
  function ThreeByteValue(b0: Byte, b1: Byte, b2: Byte): int
    requires 0xE0 <= b0 < 0xF0 && IsContinuation(b1) && IsContinuation(b2)
  {
    (b0 - 0xE0) * 4096 + (b1 - 0x80) * 64 + (b2 - 0x80)
  }

  /** The code point of a well-formed four-byte sequence. */
  function FourByteValue(b0: Byte, b1: Byte, b2: Byte, b3: Byte): int
    requires 0xF0 <= b0 < 0xF8 && IsContinuation(b1) && IsContinuation(b2) && IsContinuation(b3)
  {
    (b0 - 0xF0) * 262144 + (b1 - 0x80) * 4096 + (b2 - 0x80) * 64 + (b3 - 0x80)
  }

  /** `new String(bytes, "UTF-8")`. Well-formed sequences of one to four
      bytes give their code unit or surrogate pair; any other byte gives the
      replacement character U+FFFD. */
  function Decode(b: seq<Byte>): Str
    decreases |b|
  {
    if b == [] then []
    else if b[0] < 0x80 then [b[0]] + Decode(b[1..])
    else if 0xC2 <= b[0] < 0xE0 && |b| >= 2 && IsContinuation(b[1]) then
      [(b[0] - 0xC0) * 64 + (b[1] - 0x80)] + Decode(b[2..])
    else if 0xE0 <= b[0] < 0xF0 && |b| >= 3 && IsContinuation(b[1]) && IsContinuation(b[2])
      && 0x800 <= ThreeByteValue(b[0], b[1], b[2]) && !IsSurrogate(ThreeByteValue(b[0], b[1], b[2])) then
      [ThreeByteValue(b[0], b[1], b[2])] + Decode(b[3..])
    else if 0xF0 <= b[0] < 0xF5 && |b| >= 4 && IsContinuation(b[1]) && IsContinuation(b[2]) && IsContinuation(b[3])
      && 0x1_0000 <= FourByteValue(b[0], b[1], b[2], b[3]) < 0x11_0000 then
      var v := FourByteValue(b[0], b[1], b[2], b[3]) - 0x1_0000;
      [0xD800 + v / 0x400, 0xDC00 + v % 0x400] + Decode(b[4..])
    else [0xFFFD] + Decode(b[1..])
  }

  /** Decoding reads back the bytes of one non-surrogate code unit and
      carries on with the rest. */
  lemma DecodeEncodeUnit(u: CodeUnit, rest: seq<Byte>)
    requires !IsSurrogate(u)
    ensures Decode(EncodeUnit(u) + rest) == [u] + Decode(rest)
  {
    var b := EncodeUnit(u) + rest;
    if u < 0x80 {
      assert b[1..] == rest;
    } else if u < 0x800 {
      assert b[2..] == rest;
      assert (u / 64) * 64 + u % 64 == u;
    } else {
      assert b[3..] == rest;
      var hi, mid, lo := u / 4096, (u / 64) % 64, u % 64;
      assert u / 64 == hi * 64 + mid;
      assert u == hi * 4096 + mid * 64 + lo;
      assert ThreeByteValue(b[0], b[1], b[2]) == u;
    }
  }

  /** The inverse property for well-formed encodings: decoding the bytes of
      a string without surrogates gives the string back. */
  lemma {:induction false} DecodeEncodeUnits(s: Str)
    requires forall i | 0 <= i < |s| :: !IsSurrogate(s[i])
    ensures Decode(EncodeUnits(s)) == s
  {
    if s != [] {
      DecodeEncodeUnits(s[1..]);
      DecodeEncodeUnit(s[0], EncodeUnits(s[1..]));
      assert [s[0]] + s[1..] == s;
    }
  }

  /** The bytes of a concatenation are the concatenated bytes. */
  lemma {:induction false} EncodeUnitsConcat(a: Str, b: Str)
    ensures EncodeUnits(a + b) == EncodeUnits(a) + EncodeUnits(b)
  {
    if a == [] {
      assert a + b == b;
    } else {
      assert (a + b)[1..] == a[1..] + b;
      EncodeUnitsConcat(a[1..], b);
    }
  }

  /** A lone surrogate does not survive the round trip: it comes back as `?`. */
  lemma LoneSurrogateBecomesQuestionMark(u: CodeUnit)
    requires IsSurrogate(u)
    ensures Decode(EncodeUnit(u)) == [0x3F]
  {
    assert [0x3F as Byte][1..] == [];
  }
}
