/** The percent codec of `Cookies`: `encode` with its exception set,
    `encodeValue`, which derives the exception set from the value, and
    `decode`, which replaces uppercase `%XX` runs by their UTF-8 decoding.

    Each operation is a method that works step by step as the Java code does
    (a replace on the whole accumulated string for each escapable index, a
    scan for runs of the original string) and is proved equal to a
    specification function; the properties are lemmas about those functions. */
module PercentCodec {
  import opened Base
  import opened JavaStrings
  import Utf8

  const PERCENT: CodeUnit := '%' as int

  // ---------------------------------------------------------------------
  // Character classes of `encode`
  // ---------------------------------------------------------------------

  /** `Character.isDigit` on one code unit: the decimal-digit (Nd) blocks of
      the Basic Multilingual Plane as of Java 9 (Unicode 8.0); later
      Unicode versions add decimal digits only outside that plane. */
  predicate IsDigit(c: CodeUnit) {
    || 0x0030 <= c <= 0x0039 || 0x0660 <= c <= 0x0669 || 0x06F0 <= c <= 0x06F9
    || 0x07C0 <= c <= 0x07C9 || 0x0966 <= c <= 0x096F || 0x09E6 <= c <= 0x09EF
    || 0x0A66 <= c <= 0x0A6F || 0x0AE6 <= c <= 0x0AEF || 0x0B66 <= c <= 0x0B6F
    || 0x0BE6 <= c <= 0x0BEF || 0x0C66 <= c <= 0x0C6F || 0x0CE6 <= c <= 0x0CEF
    || 0x0D66 <= c <= 0x0D6F || 0x0DE6 <= c <= 0x0DEF || 0x0E50 <= c <= 0x0E59
    || 0x0ED0 <= c <= 0x0ED9 || 0x0F20 <= c <= 0x0F29 || 0x1040 <= c <= 0x1049
    || 0x1090 <= c <= 0x1099 || 0x17E0 <= c <= 0x17E9 || 0x1810 <= c <= 0x1819
    || 0x1946 <= c <= 0x194F || 0x19D0 <= c <= 0x19D9 || 0x1A80 <= c <= 0x1A89
    || 0x1A90 <= c <= 0x1A99 || 0x1B50 <= c <= 0x1B59 || 0x1BB0 <= c <= 0x1BB9
    || 0x1C40 <= c <= 0x1C49 || 0x1C50 <= c <= 0x1C59 || 0xA620 <= c <= 0xA629
    || 0xA8D0 <= c <= 0xA8D9 || 0xA900 <= c <= 0xA909 || 0xA9D0 <= c <= 0xA9D9
    || 0xA9F0 <= c <= 0xA9F9 || 0xAA50 <= c <= 0xAA59 || 0xABF0 <= c <= 0xABF9
    || 0xFF10 <= c <= 0xFF19
  }

  predicate IsAsciiUppercaseLetter(c: CodeUnit) {
    'A' as int <= c <= 'Z' as int
  }

  predicate IsAsciiLowercaseLetter(c: CodeUnit) {
    'a' as int <= c <= 'z' as int
  }

  /** The fixed safe punctuation ``! # $ & ' * + - . ^ _ ` | ~``. */
  predicate IsAllowed(c: CodeUnit) {
    || c == '!' as int || c == '#' as int || c == '$' as int
    || c == '&' as int || c == '\'' as int || c == '*' as int
    || c == '+' as int || c == '-' as int || c == '.' as int
    || c == '^' as int || c == '_' as int || c == '`' as int
    || c == '|' as int || c == '~' as int
  }

  /** A code unit that `encode` never escapes, whatever the exceptions. */
  predicate IsSafe(c: CodeUnit) {
    IsDigit(c) || IsAsciiUppercaseLetter(c) || IsAsciiLowercaseLetter(c) || IsAllowed(c)
  }

  /** A code unit that `encode` copies unchanged. */
  predicate PassesThrough(c: CodeUnit, exceptions: set<CodeUnit>) {
    IsSafe(c) || c in exceptions
  }

  // ---------------------------------------------------------------------
  // Escape sequences
  // ---------------------------------------------------------------------

  /** `Character.forDigit(n, 16)` after `toUpperCase`: an uppercase hex digit. */
  function HexDigit(n: int): (h: CodeUnit)
    requires 0 <= n < 16
    ensures h != PERCENT
    ensures ('0' as int <= h <= '9' as int) || ('A' as int <= h <= 'F' as int)
  {
    if n < 10 then '0' as int + n else 'A' as int + n - 10
  }

  /** `Character.digit(c, 16)` on the ASCII digits and letters. */
  function HexValue(c: CodeUnit): (v: Option<int>)
    ensures v.Some? ==> 0 <= v.value < 16
  {
    if '0' as int <= c <= '9' as int then Some(c - '0' as int)
    else if 'A' as int <= c <= 'F' as int then Some(c - 'A' as int + 10)
    else if 'a' as int <= c <= 'f' as int then Some(c - 'a' as int + 10)
    else None
  }

  lemma HexValueOfDigit(n: int)
    requires 0 <= n < 16
    ensures HexValue(HexDigit(n)) == Some(n)
  {
  }

  /** The escape sequence of a byte string: `%` and two uppercase hex
      digits, high nibble first, for every byte. */
  function EscapeBytes(bytes: seq<Byte>): (e: Str)
    ensures |e| == 3 * |bytes|
  {
    if bytes == [] then []
    else [PERCENT, HexDigit(bytes[0] / 16), HexDigit(bytes[0] % 16)] + EscapeBytes(bytes[1..])
  }

  /** Byte `k` becomes `%`, its high nibble and its low nibble, as
      uppercase hex, at positions `3k` to `3k + 2`. */
  lemma {:induction false} EscapeBytesAt(bytes: seq<Byte>, k: nat)
    requires k < |bytes|
    ensures EscapeBytes(bytes)[3 * k] == PERCENT
    ensures EscapeBytes(bytes)[3 * k + 1] == HexDigit(bytes[k] / 16)
    ensures EscapeBytes(bytes)[3 * k + 2] == HexDigit(bytes[k] % 16)
  {
    if k > 0 {
      EscapeBytesAt(bytes[1..], k - 1);
    }
  }

  lemma {:induction false} EscapeBytesConcat(a: seq<Byte>, b: seq<Byte>)
    ensures EscapeBytes(a + b) == EscapeBytes(a) + EscapeBytes(b)
  {
    if a == [] {
      assert a + b == b;
    } else {
      assert (a + b)[1..] == a[1..] + b;
      EscapeBytesConcat(a[1..], b);
    }
  }

  /** Every unit of an escape sequence is `%` or an uppercase hex digit. */
  lemma EscapeBytesAlphabet(bytes: seq<Byte>, j: int)
    requires 0 <= j < |EscapeBytes(bytes)|
    ensures EscapeBytes(bytes)[j] == PERCENT || ('0' as int <= EscapeBytes(bytes)[j] <= '9' as int)
      || ('A' as int <= EscapeBytes(bytes)[j] <= 'F' as int)
  {
    var k := j / 3;
    assert j == 3 * k || j == 3 * k + 1 || j == 3 * k + 2;
    EscapeBytesAt(bytes, k);
  }

  /** What `encode` substitutes for an escapable code unit. */
  function Escape(c: CodeUnit): Str {
    EscapeBytes(Utf8.EncodeUnit(c))
  }

  /** An escapable unit other than `%` never occurs in an escape sequence,
      because the sequences consist of `%` and hex digits, which are safe. */
  lemma NotInEscape(c: CodeUnit, x: CodeUnit)
    requires !IsSafe(c) && c != PERCENT
    ensures c !in Escape(x)
  {
    if c in Escape(x) {
      var j :| 0 <= j < |Escape(x)| && Escape(x)[j] == c;
      EscapeBytesAlphabet(Utf8.EncodeUnit(x), j);
    }
  }

  // ---------------------------------------------------------------------
  // encode, as written: one whole-string replace per escapable index
  // ---------------------------------------------------------------------

  /** The state of `encode`'s loop from index `i` on, with `encoded` the
      string accumulated so far. */
  function EncodeFrom(decoded: Str, exceptions: set<CodeUnit>, i: nat, encoded: Str): Str
    requires i <= |decoded|
    decreases |decoded| - i
  {
    if i == |decoded| then encoded
    else if PassesThrough(decoded[i], exceptions) then EncodeFrom(decoded, exceptions, i + 1, encoded)
    else EncodeFrom(decoded, exceptions, i + 1, Replace(encoded, [decoded[i]], Escape(decoded[i])))
  }

  /** `encode(decoded, exceptions)`. */
  function Encoded(decoded: Str, exceptions: set<CodeUnit>): Str {
    EncodeFrom(decoded, exceptions, 0, decoded)
  }

  /** Escaping never shortens the string, so a non-empty string has a
      non-empty encoding. */
  lemma {:induction false} EncodeFromLength(decoded: Str, exceptions: set<CodeUnit>, i: nat, encoded: Str)
    requires i <= |decoded|
    ensures |EncodeFrom(decoded, exceptions, i, encoded)| >= |encoded|
    decreases |decoded| - i
  {
    if i < |decoded| {
      if PassesThrough(decoded[i], exceptions) {
        EncodeFromLength(decoded, exceptions, i + 1, encoded);
      } else {
        var c := decoded[i];
        ReplaceUnitLength(encoded, c, Escape(c));
        EncodeFromLength(decoded, exceptions, i + 1, Replace(encoded, [c], Escape(c)));
      }
    }
  }

  /** A unit that passes through is never replaced, so it stays in the
      accumulated string. */
  lemma {:induction false} EncodeFromKeeps(decoded: Str, exceptions: set<CodeUnit>, i: nat, encoded: Str, y: CodeUnit)
    requires i <= |decoded| && PassesThrough(y, exceptions) && y in encoded
    ensures y in EncodeFrom(decoded, exceptions, i, encoded)
    decreases |decoded| - i
  {
    if i < |decoded| {
      if PassesThrough(decoded[i], exceptions) {
        EncodeFromKeeps(decoded, exceptions, i + 1, encoded, y);
      } else {
        var c := decoded[i];
        ReplaceUnitKeeps(encoded, c, Escape(c), y);
        EncodeFromKeeps(decoded, exceptions, i + 1, Replace(encoded, [c], Escape(c)), y);
      }
    }
  }

  /** `encode(decoded, exceptions)`, step by step. */
  method Encode(decoded: Str, exceptions: set<CodeUnit>) returns (encoded: Str)
    ensures encoded == Encoded(decoded, exceptions)
  {
    encoded := decoded;
    for i := 0 to |decoded|
      invariant EncodeFrom(decoded, exceptions, i, encoded) == Encoded(decoded, exceptions)
    {
      var character := decoded[i];
      if IsDigit(character) || IsAsciiUppercaseLetter(character) || IsAsciiLowercaseLetter(character)
        || IsAllowed(character) || character in exceptions
      {
        continue;
      }
      var hexSequence := HexSequence(Utf8.EncodeUnit(character));
      encoded := Replace(encoded, [character], hexSequence);
    }
  }

  /** The `hexSequence` that `encode` builds for the UTF-8 bytes of one
      character, byte by byte. */
  method HexSequence(bytes: seq<Byte>) returns (hexSequence: Str)
    ensures hexSequence == EscapeBytes(bytes)
  {
    hexSequence := [];
    for bytesIndex := 0 to |bytes|
      invariant hexSequence == EscapeBytes(bytes[..bytesIndex])
    {
      var b := bytes[bytesIndex];
      EscapeBytesConcat(bytes[..bytesIndex], [b]);
      assert bytes[..bytesIndex + 1] == bytes[..bytesIndex] + [b];
      hexSequence := hexSequence + [PERCENT, HexDigit(b / 16), HexDigit(b % 16)];
    }
    assert bytes[..|bytes|] == bytes;
  }

  /** `encode(decoded)`: no exceptions; used for cookie names. */
  method EncodeName(decoded: Str) returns (encoded: Str)
    ensures encoded == Encoded(decoded, {})
  {
    encoded := Encode(decoded, {});
  }

  // ---------------------------------------------------------------------
  // The single-pass reference and its agreement with encode
  // ---------------------------------------------------------------------

  /** One unit of a single left-to-right pass. */
  function EscapeUnit(c: CodeUnit, exceptions: set<CodeUnit>): Str {
    if PassesThrough(c, exceptions) then [c] else Escape(c)
  }

  /** A single left-to-right pass building one output buffer. */
  function EscapeEach(s: Str, exceptions: set<CodeUnit>): Str {
    if s == [] then [] else EscapeUnit(s[0], exceptions) + EscapeEach(s[1..], exceptions)
  }

  /** `s` with exactly the units in `escaped` replaced by their escapes. */
  function EscapeIn(s: Str, escaped: set<CodeUnit>): Str {
    if s == [] then [] else (if s[0] in escaped then Escape(s[0]) else [s[0]]) + EscapeIn(s[1..], escaped)
  }

  lemma {:induction false} EscapeInNone(s: Str)
    ensures EscapeIn(s, {}) == s
  {
    if s != [] {
      EscapeInNone(s[1..]);
      assert [s[0]] + s[1..] == s;
    }
  }

  /** One whole-string replace of a unit that no escape contains extends the
      set of escaped units by that unit. */
  lemma {:induction false} ReplaceEscapesOneMore(s: Str, escaped: set<CodeUnit>, c: CodeUnit)
    requires !IsSafe(c) && c != PERCENT
    ensures Replace(EscapeIn(s, escaped), [c], Escape(c)) == EscapeIn(s, escaped + {c})
  {
    if s != [] {
      var head := if s[0] in escaped then Escape(s[0]) else [s[0]];
      ReplaceUnitConcat(head, EscapeIn(s[1..], escaped), c, Escape(c));
      ReplaceEscapesOneMore(s[1..], escaped, c);
      if s[0] in escaped {
        NotInEscape(c, s[0]);
        ReplaceAbsent(head, [c], Escape(c));
      } else {
        ReplaceUnitSingle(s[0], c, Escape(c));
      }
    }
  }

  /** Escaping exactly the units that do not pass through is the single pass. */
  lemma {:induction false} EscapeInIsEscapeEach(s: Str, escaped: set<CodeUnit>, exceptions: set<CodeUnit>)
    requires forall k | 0 <= k < |s| :: s[k] in escaped <==> !PassesThrough(s[k], exceptions)
    ensures EscapeIn(s, escaped) == EscapeEach(s, exceptions)
  {
    if s != [] {
      assert s[0] in escaped <==> !PassesThrough(s[0], exceptions);
      EscapeInIsEscapeEach(s[1..], escaped, exceptions);
    }
  }

  lemma {:induction false} EncodeFromEscapeIn(decoded: Str, exceptions: set<CodeUnit>, i: nat, escaped: set<CodeUnit>)
    requires i <= |decoded| && PERCENT !in decoded
    requires forall x | x in escaped :: !PassesThrough(x, exceptions)
    requires forall j | 0 <= j < i :: !PassesThrough(decoded[j], exceptions) ==> decoded[j] in escaped
    ensures EncodeFrom(decoded, exceptions, i, EscapeIn(decoded, escaped)) == EscapeEach(decoded, exceptions)
    decreases |decoded| - i
  {
    if i == |decoded| {
      EscapeInIsEscapeEach(decoded, escaped, exceptions);
    } else {
      var c := decoded[i];
      if PassesThrough(c, exceptions) {
        EncodeFromEscapeIn(decoded, exceptions, i + 1, escaped);
      } else {
        ReplaceEscapesOneMore(decoded, escaped, c);
        EncodeFromEscapeIn(decoded, exceptions, i + 1, escaped + {c});
      }
    }
  }

  /** When the input contains no `%`, the replace-based loop is a single
      left-to-right escape: each escapable unit becomes its own escape. */
  lemma SinglePassWithoutPercent(decoded: Str, exceptions: set<CodeUnit>)
    requires PERCENT !in decoded
    ensures Encoded(decoded, exceptions) == EscapeEach(decoded, exceptions)
  {
    EscapeInNone(decoded);
    EncodeFromEscapeIn(decoded, exceptions, 0, {});
  }

  lemma {:induction false} EscapeEachConcat(a: Str, b: Str, exceptions: set<CodeUnit>)
    ensures EscapeEach(a + b, exceptions) == EscapeEach(a, exceptions) + EscapeEach(b, exceptions)
  {
    if a == [] {
      assert a + b == b;
    } else {
      assert (a + b)[1..] == a[1..] + b;
      EscapeEachConcat(a[1..], b, exceptions);
    }
  }

  lemma {:induction false} EncodeFromAllPass(decoded: Str, exceptions: set<CodeUnit>, i: nat, encoded: Str)
    requires i <= |decoded|
    requires forall k | 0 <= k < |decoded| :: PassesThrough(decoded[k], exceptions)
    ensures EncodeFrom(decoded, exceptions, i, encoded) == encoded
    decreases |decoded| - i
  {
    if i < |decoded| {
      EncodeFromAllPass(decoded, exceptions, i + 1, encoded);
    }
  }

  /** A string of safe and exception units is returned unchanged. */
  lemma PassingUnchanged(decoded: Str, exceptions: set<CodeUnit>)
    requires forall k | 0 <= k < |decoded| :: PassesThrough(decoded[k], exceptions)
    ensures Encoded(decoded, exceptions) == decoded
  {
    EncodeFromAllPass(decoded, exceptions, 0, decoded);
  }

  lemma {:induction false} EscapeEachAllPass(s: Str, exceptions: set<CodeUnit>)
    requires forall k | 0 <= k < |s| :: PassesThrough(s[k], exceptions)
    ensures EscapeEach(s, exceptions) == s
  {
    if s != [] {
      assert PassesThrough(s[0], exceptions);
      EscapeEachAllPass(s[1..], exceptions);
      assert [s[0]] + s[1..] == s;
    }
  }

  /** A block of escapable units becomes the escape of its UTF-8 bytes. */
  lemma {:induction false} EscapeEachNonePass(s: Str, exceptions: set<CodeUnit>)
    requires forall k | 0 <= k < |s| :: !PassesThrough(s[k], exceptions)
    ensures EscapeEach(s, exceptions) == EscapeBytes(Utf8.EncodeUnits(s))
  {
    if s != [] {
      assert !PassesThrough(s[0], exceptions);
      EscapeEachNonePass(s[1..], exceptions);
      EscapeBytesConcat(Utf8.EncodeUnit(s[0]), Utf8.EncodeUnits(s[1..]));
    }
  }

  /** Units of a one-unit replace come from the replacement or are other
      units of the original. */
  lemma {:induction false} ReplaceUnitUnits(s: Str, c: CodeUnit, replacement: Str, y: CodeUnit)
    requires y in Replace(s, [c], replacement)
    ensures y in replacement || (y in s && y != c)
  {
    if s != [] {
      ReplaceUnitConcat([s[0]], s[1..], c, replacement);
      assert [s[0]] + s[1..] == s;
      ReplaceUnitSingle(s[0], c, replacement);
      if y in Replace(s[1..], [c], replacement) {
        ReplaceUnitUnits(s[1..], c, replacement, y);
      }
    }
  }

  lemma {:induction false} EncodeFromAlphabet(decoded: Str, exceptions: set<CodeUnit>, i: nat, encoded: Str)
    requires i <= |decoded|
    requires forall y | y in encoded :: PassesThrough(y, exceptions) || y == PERCENT || y in decoded[i..]
    ensures forall y | y in EncodeFrom(decoded, exceptions, i, encoded) :: PassesThrough(y, exceptions) || y == PERCENT
    decreases |decoded| - i
  {
    if i < |decoded| {
      var c := decoded[i];
      assert forall y | y in decoded[i..] :: y == c || y in decoded[i + 1..] by {
        assert decoded[i..] == [c] + decoded[i + 1..];
      }
      if PassesThrough(c, exceptions) {
        EncodeFromAlphabet(decoded, exceptions, i + 1, encoded);
      } else {
        var next := Replace(encoded, [c], Escape(c));
        forall y | y in next ensures PassesThrough(y, exceptions) || y == PERCENT || y in decoded[i + 1..] {
          ReplaceUnitUnits(encoded, c, Escape(c), y);
          if y in Escape(c) {
            var j :| 0 <= j < |Escape(c)| && Escape(c)[j] == y;
            EscapeBytesAlphabet(Utf8.EncodeUnit(c), j);
          }
        }
        EncodeFromAlphabet(decoded, exceptions, i + 1, next);
      }
    }
  }

  /** Whatever the input, `%` is the only unit of the output that does not
      pass through: every other escapable unit has been replaced. */
  lemma EncodedAlphabet(decoded: Str, exceptions: set<CodeUnit>)
    ensures forall y | y in Encoded(decoded, exceptions) :: PassesThrough(y, exceptions) || y == PERCENT
  {
    assert decoded[0..] == decoded;
    EncodeFromAlphabet(decoded, exceptions, 0, decoded);
  }

  lemma {:induction false} EncodeFromAgree(decoded: Str, e1: set<CodeUnit>, e2: set<CodeUnit>, i: nat, encoded: Str)
    requires i <= |decoded|
    requires forall k | 0 <= k < |decoded| :: decoded[k] in e1 <==> decoded[k] in e2
    ensures EncodeFrom(decoded, e1, i, encoded) == EncodeFrom(decoded, e2, i, encoded)
    decreases |decoded| - i
  {
    if i < |decoded| {
      assert PassesThrough(decoded[i], e1) == PassesThrough(decoded[i], e2);
      EncodeFromAgree(decoded, e1, e2, i + 1, if PassesThrough(decoded[i], e1) then encoded
        else Replace(encoded, [decoded[i]], Escape(decoded[i])));
    }
  }

  // ---------------------------------------------------------------------
  // encodeValue
  // ---------------------------------------------------------------------

  /** The units `encodeValue` leaves unescaped in values: `/`, `:`,
      `<` to `@`, `[`, `]`, `{` and `}`. */
  predicate IsIgnorable(c: CodeUnit) {
    || c == '/' as int || c == ':' as int
    || ('<' as int <= c <= '@' as int)
    || c == '[' as int || c == ']' as int
    || c == '{' as int || c == '}' as int
  }

  /** The whole ignorable set. */
  const Ignorable: set<CodeUnit> := set c: CodeUnit | '/' as int <= c <= '}' as int && IsIgnorable(c)

  /** The exception set `encodeValue` collects: the ignorable units of the value. */
  function ValueExceptions(value: Str): set<CodeUnit> {
    set i | 0 <= i < |value| && IsIgnorable(value[i]) :: value[i]
  }

  /** `encodeValue(value)`. */
  function EncodedValue(value: Str): Str {
    Encoded(value, ValueExceptions(value))
  }

  /** `encodeValue(value)`, step by step. */
  method EncodeValue(decodedValue: Str) returns (encoded: Str)
    ensures encoded == EncodedValue(decodedValue)
  {
    var exceptions: set<CodeUnit> := {};
    for i := 0 to |decodedValue|
      invariant exceptions == ValueExceptions(decodedValue[..i])
    {
      var character := decodedValue[i];
      var isIgnorable := false;
      if character == '/' as int || character == ':' as int {
        isIgnorable := true;
      }
      if '<' as int <= character <= '@' as int {
        isIgnorable := true;
      }
      if character == '[' as int || character == ']' as int {
        isIgnorable := true;
      }
      if character == '{' as int || character == '}' as int {
        isIgnorable := true;
      }
      ghost var prefix := decodedValue[..i + 1];
      assert prefix == decodedValue[..i] + [character];
      assert ValueExceptions(prefix) == ValueExceptions(decodedValue[..i]) + (if isIgnorable then {character} else {}) by {
        forall x ensures x in ValueExceptions(prefix) <==> x in ValueExceptions(decodedValue[..i]) + (if isIgnorable then {character} else {}) {
          if x in ValueExceptions(prefix) {
            var j :| 0 <= j < |prefix| && IsIgnorable(prefix[j]) && prefix[j] == x;
            if j < i { assert decodedValue[..i][j] == x; }
          }
          if x in ValueExceptions(decodedValue[..i]) {
            var j :| 0 <= j < i && IsIgnorable(decodedValue[..i][j]) && decodedValue[..i][j] == x;
            assert prefix[j] == x;
          }
          if isIgnorable && x == character {
            assert prefix[i] == x;
          }
        }
      }
      if isIgnorable {
        exceptions := exceptions + {character};
      }
    }
    assert decodedValue[..|decodedValue|] == decodedValue;
    encoded := Encode(decodedValue, exceptions);
  }

  /** Collecting the exceptions from the value is the same as using the
      whole ignorable set, so ignorable units, `=` among them, are never
      escaped in values. */
  lemma EncodedValueIgnorable(value: Str)
    ensures EncodedValue(value) == Encoded(value, Ignorable)
  {
    forall k | 0 <= k < |value| ensures value[k] in ValueExceptions(value) <==> value[k] in Ignorable {
    }
    EncodeFromAgree(value, ValueExceptions(value), Ignorable, 0, value);
  }

  // ---------------------------------------------------------------------
  // decode: runs of (%[0-9A-Z]{2})+ in the original string
  // ---------------------------------------------------------------------

  /** `[0-9A-Z]`. */
  predicate IsRunDigit(c: CodeUnit) {
    ('0' as int <= c <= '9' as int) || ('A' as int <= c <= 'Z' as int)
  }

  /** One `%[0-9A-Z]{2}` group starts at `i`. */
  predicate GroupAt(s: Str, i: nat) {
    i + 3 <= |s| && s[i] == PERCENT && IsRunDigit(s[i + 1]) && IsRunDigit(s[i + 2])
  }

  /** The end of the greedy run of groups starting at `i`. */
  function RunEnd(s: Str, i: nat): (e: nat)
    requires i <= |s|
    ensures i <= e <= |s| && (e - i) % 3 == 0 && !GroupAt(s, e)
    ensures GroupAt(s, i) ==> i + 3 <= e
    decreases |s| - i
  {
    if GroupAt(s, i) then RunEnd(s, i + 3) else i
  }

  /** Every third position of a run starts a group. */
  lemma {:induction false} RunEndGroups(s: Str, i: nat, k: nat)
    requires i <= |s| && i + 3 * k < RunEnd(s, i)
    ensures GroupAt(s, i + 3 * k)
    decreases k
  {
    if k > 0 {
      RunEndGroups(s, i + 3, k - 1);
    }
  }

  /** `Integer.parseInt(group, 16)` for every group of a run, left to right;
      `None` is the `NumberFormatException` a digit outside `0-9A-F` raises. */
  function ParseGroups(run: Str): Option<seq<Byte>>
    decreases |run|
  {
    if |run| < 3 then Some([])
    else
      match (HexValue(run[1]), HexValue(run[2]))
      case (Some(hi), Some(lo)) =>
        (match ParseGroups(run[3..])
         case None => None
         case Some(rest) => Some([hi * 16 + lo] + rest))
      case _ => None
  }

  /** The state of `decode`'s `matcher.find()` loop from position `p` of
      the original string, with `decoded` the string accumulated so far. */
  function DecodeFrom(s: Str, p: nat, decoded: Str): Result<Str>
    requires p <= |s|
    decreases |s| - p
  {
    if p == |s| then Success(decoded)
    else if !GroupAt(s, p) then DecodeFrom(s, p + 1, decoded)
    else
      var e := RunEnd(s, p);
      match ParseGroups(s[p..e])
      case None => Failure(NumberFormat)
      case Some(bytes) => DecodeFrom(s, e, Replace(decoded, s[p..e], Utf8.Decode(bytes)))
  }

  /** `decode(encoded)`. */
  function Decoded(encoded: Str): Result<Str> {
    DecodeFrom(encoded, 0, encoded)
  }

  /** `r` prefixed by `bytes`, failure staying failure. */
  function Prefixed(bytes: seq<Byte>, r: Option<seq<Byte>>): Option<seq<Byte>> {
    match r
    case None => None
    case Some(rest) => Some(bytes + rest)
  }

  /** The bytes of one run: the `Integer.parseInt(_, 16)` loop over the
      two-digit groups that `split("%")` yields, `None` for the exception. */
  method ParseRun(encodedChar: Str) returns (r: Option<seq<Byte>>)
    ensures r == ParseGroups(encodedChar)
  {
    var bytes: seq<Byte> := [];
    var k := 0;
    assert encodedChar[3 * k..] == encodedChar;
    assert Prefixed(bytes, ParseGroups(encodedChar)) == ParseGroups(encodedChar) by {
      if ParseGroups(encodedChar).Some? {
        assert bytes + ParseGroups(encodedChar).value == ParseGroups(encodedChar).value;
      }
    }
    while 3 * k + 3 <= |encodedChar|
      invariant 3 * k <= |encodedChar|
      invariant ParseGroups(encodedChar) == Prefixed(bytes, ParseGroups(encodedChar[3 * k..]))
    {
      var rest := encodedChar[3 * k..];
      assert rest[1] == encodedChar[3 * k + 1] && rest[2] == encodedChar[3 * k + 2];
      assert rest[3..] == encodedChar[3 * (k + 1)..];
      var hi := HexValue(encodedChar[3 * k + 1]);
      var lo := HexValue(encodedChar[3 * k + 2]);
      if hi.None? || lo.None? {
        return None;
      }
      var b := hi.value * 16 + lo.value;
      assert forall x :: bytes + ([b] + x) == (bytes + [b]) + x;
      bytes := bytes + [b];
      k := k + 1;
    }
    assert ParseGroups(encodedChar[3 * k..]) == Some([]);
    assert bytes + [] == bytes;
    return Some(bytes);
  }

  /** `decode(encoded)`, step by step. */
  method Decode(encoded: Str) returns (r: Result<Str>)
    ensures r == Decoded(encoded)
  {
    var decoded := encoded;
    var p := 0;
    while p < |encoded|
      invariant p <= |encoded|
      invariant DecodeFrom(encoded, p, decoded) == Decoded(encoded)
    {
      if !GroupAt(encoded, p) {
        p := p + 1;
        continue;
      }
      var e := p + 3;
      while GroupAt(encoded, e)
        invariant p + 3 <= e <= |encoded|
        invariant RunEnd(encoded, e) == RunEnd(encoded, p)
        decreases |encoded| - e
      {
        e := e + 3;
      }
      var encodedChar := encoded[p..e];
      var bytes := ParseRun(encodedChar);
      if bytes.None? {
        return Failure(NumberFormat);
      }
      decoded := Replace(decoded, encodedChar, Utf8.Decode(bytes.value));
      p := e;
    }
    return Success(decoded);
  }
}
