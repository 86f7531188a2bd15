/** What the percent codec promises, and what it does not: the decode
    cases, the round trip under the conditions where the replace-based
    encode and decode do invert each other, and inputs where they do not. */
module CodecProperties {
  import opened Base
  import opened JavaStrings
  import Utf8
  import opened PercentCodec

  // ---------------------------------------------------------------------
  // decode
  // ---------------------------------------------------------------------

  /** Positions without `%` are skipped by the scan. */
  lemma {:induction false} DecodeSkip(s: Str, p: nat, q: nat, decoded: Str)
    requires p <= q <= |s|
    requires forall i | p <= i < q :: s[i] != PERCENT
    ensures DecodeFrom(s, p, decoded) == DecodeFrom(s, q, decoded)
    decreases q - p
  {
    if p < q {
      assert !GroupAt(s, p);
      DecodeSkip(s, p + 1, q, decoded);
    }
  }

  lemma {:induction false} DecodeFromNoGroup(s: Str, p: nat, decoded: Str)
    requires p <= |s|
    requires forall i | p <= i < |s| :: !GroupAt(s, i)
    ensures DecodeFrom(s, p, decoded) == Success(decoded)
    decreases |s| - p
  {
    if p < |s| {
      DecodeFromNoGroup(s, p + 1, decoded);
    }
  }

  /** A string with no `%[0-9A-Z]{2}` group is returned unchanged; so are
      lowercase escapes such as `%3a`. */
  lemma DecodeWithoutRuns(s: Str)
    requires forall i | 0 <= i < |s| :: !GroupAt(s, i)
    ensures Decoded(s) == Success(s)
  {
    DecodeFromNoGroup(s, 0, s);
  }

  /** A group whose digits include one of `G` to `Z`, which the pattern
      accepts and `Integer.parseInt(_, 16)` rejects. */
  predicate BadGroup(s: Str, i: nat) {
    GroupAt(s, i) && ('G' as int <= s[i + 1] || 'G' as int <= s[i + 2])
  }

  /** Inside a run, groups start only at every third position. */
  lemma GroupsAligned(s: Str, p: nat, i: nat)
    requires p <= |s| && p <= i < RunEnd(s, p) && GroupAt(s, i)
    ensures (i - p) % 3 == 0
  {
    var k := (i - p) / 3;
    RunEndGroups(s, p, k);
  }

  /** Groups start at `p`, `p + 3`, ... before `e`. */
  predicate Groups(s: Str, p: nat, e: nat)
    decreases e - p
  {
    p >= e || (GroupAt(s, p) && Groups(s, p + 3, e))
  }

  /** One of those groups is bad. */
  predicate SomeBad(s: Str, p: nat, e: nat)
    decreases e - p
  {
    p < e && (BadGroup(s, p) || SomeBad(s, p + 3, e))
  }

  /** Parsing a run that starts with a group fails exactly when that group
      is bad or parsing the rest fails. */
  lemma ParseGroupsStep(run: Str)
    requires GroupAt(run, 0)
    ensures ParseGroups(run).None? <==> BadGroup(run, 0) || ParseGroups(run[3..]).None?
  {
  }

  /** The first group of the run from `p` to `e`, then the rest of it. */
  lemma ParseRunHead(s: Str, p: nat, e: nat)
    requires p + 3 <= e <= |s| && GroupAt(s, p)
    ensures ParseGroups(s[p..e]).None? <==> BadGroup(s, p) || ParseGroups(s[p + 3..e]).None?
  {
    var run := s[p..e];
    assert run[0] == s[p] && run[1] == s[p + 1] && run[2] == s[p + 2];
    assert run[3..] == s[p + 3..e];
    ParseGroupsStep(run);
  }

  /** `parseInt` fails on a run exactly when one of its groups is bad. */
  lemma {:induction false} ParseRunFails(s: Str, p: nat, e: nat)
    requires p <= e <= |s| && (e - p) % 3 == 0 && Groups(s, p, e)
    ensures ParseGroups(s[p..e]).None? <==> SomeBad(s, p, e)
    decreases e - p
  {
    if p < e {
      ParseRunHead(s, p, e);
      ParseRunFails(s, p + 3, e);
    }
  }

  /** The run from `p` is made of groups. */
  lemma {:induction false} RunGroups(s: Str, p: nat)
    requires p <= |s|
    ensures Groups(s, p, RunEnd(s, p))
    decreases |s| - p
  {
    if GroupAt(s, p) {
      RunGroups(s, p + 3);
    }
  }

  lemma {:induction false} SomeBadExists(s: Str, p: nat, e: nat)
    requires SomeBad(s, p, e)
    ensures exists i | p <= i < e :: BadGroup(s, i)
    decreases e - p
  {
    if !BadGroup(s, p) {
      SomeBadExists(s, p + 3, e);
    }
  }

  /** Between the groups of a run no other group starts, because their
      digits are not `%`; so a run without a bad group has none at all. */
  lemma {:induction false} NoBadInGroups(s: Str, p: nat, e: nat)
    requires e <= |s| && Groups(s, p, e) && !SomeBad(s, p, e)
    ensures forall i | p <= i < e :: !BadGroup(s, i)
    decreases e - p
  {
    if p < e {
      NoBadInGroups(s, p + 3, e);
      forall i | p < i < e && i < p + 3 ensures !GroupAt(s, i) {
        assert s[i] == s[p + 1] || s[i] == s[p + 2];
      }
    }
  }

  lemma {:induction false} DecodeFromFails(s: Str, p: nat, decoded: Str)
    requires p <= |s|
    ensures DecodeFrom(s, p, decoded).Failure? <==> exists i | p <= i < |s| :: BadGroup(s, i)
    ensures DecodeFrom(s, p, decoded).Failure? ==> DecodeFrom(s, p, decoded).error == NumberFormat
    decreases |s| - p
  {
    if p < |s| {
      if !GroupAt(s, p) {
        DecodeFromFails(s, p + 1, decoded);
      } else {
        var e := RunEnd(s, p);
        RunGroups(s, p);
        ParseRunFails(s, p, e);
        match ParseGroups(s[p..e])
        case None =>
          SomeBadExists(s, p, e);
        case Some(bytes) =>
          DecodeFromFails(s, e, Replace(decoded, s[p..e], Utf8.Decode(bytes)));
          NoBadInGroups(s, p, e);
      }
    }
  }

  /** `decode` fails, with the `NumberFormatException` of `parseInt`,
      exactly when some group of the string has a digit from `G` to `Z`. */
  lemma DecodeFailsExactly(s: Str)
    ensures Decoded(s).Failure? <==> exists i | 0 <= i < |s| :: BadGroup(s, i)
    ensures Decoded(s).Failure? ==> Decoded(s).error == NumberFormat
  {
    DecodeFromFails(s, 0, s);
  }

  /** Parsing the escape of some bytes gives the bytes back. */
  lemma {:induction false} ParseEscapeBytes(bytes: seq<Byte>)
    ensures ParseGroups(EscapeBytes(bytes)) == Some(bytes)
  {
    if bytes != [] {
      var run := EscapeBytes(bytes);
      var b := bytes[0];
      assert run[1] == HexDigit(b / 16) && run[2] == HexDigit(b % 16);
      assert run[3..] == EscapeBytes(bytes[1..]);
      HexValueOfDigit(b / 16);
      HexValueOfDigit(b % 16);
      ParseEscapeBytes(bytes[1..]);
      assert [b] + bytes[1..] == bytes;
    }
  }

  lemma {:induction false} RunEndExact(s: Str, i: nat, n: nat)
    requires i + 3 * n <= |s|
    requires forall k: nat | k < n :: GroupAt(s, i + 3 * k)
    requires !GroupAt(s, i + 3 * n)
    ensures RunEnd(s, i) == i + 3 * n
    decreases n
  {
    if n > 0 {
      assert GroupAt(s, i + 3 * 0);
      forall k: nat | k < n - 1 ensures GroupAt(s, i + 3 + 3 * k) {
        assert GroupAt(s, i + 3 * (k + 1));
      }
      RunEndExact(s, i + 3, n - 1);
    }
  }

  /** Group `k` of an escape sequence is a `%XX` group. */
  lemma EscapeBytesGroup(bytes: seq<Byte>, k: nat)
    requires k < |bytes|
    ensures GroupAt(EscapeBytes(bytes), 3 * k)
  {
    EscapeBytesAt(bytes, k);
  }

  /** A group of `t` is a group of any text around `t`. */
  lemma GroupAtShift(before: Str, t: Str, after: Str, j: nat)
    requires GroupAt(t, j)
    ensures GroupAt(before + t + after, |before| + j)
  {
    var s := before + t + after;
    var i := |before| + j;
    assert s[i] == t[j] && s[i + 1] == t[j + 1] && s[i + 2] == t[j + 2];
  }

  lemma EscapeGroupAt(before: Str, bytes: seq<Byte>, after: Str, k: nat)
    requires k < |bytes|
    ensures GroupAt(before + EscapeBytes(bytes) + after, |before| + 3 * k)
  {
    EscapeBytesGroup(bytes, k);
    GroupAtShift(before, EscapeBytes(bytes), after, 3 * k);
  }

  /** A block of `n` groups followed by text without `%` is one whole run. */
  lemma RunEndOfGroups(before: Str, run: Str, after: Str, n: nat)
    requires |run| == 3 * n && PERCENT !in after
    requires forall k: nat | k < n :: GroupAt(run, 3 * k)
    ensures RunEnd(before + run + after, |before|) == |before| + |run|
  {
    var s := before + run + after;
    forall k: nat | k < n ensures GroupAt(s, |before| + 3 * k) {
      GroupAtShift(before, run, after, 3 * k);
    }
    var end := |before| + 3 * n;
    assert !GroupAt(s, end) by {
      if end < |s| {
        assert s[end] == after[0];
      }
    }
    RunEndExact(s, |before|, n);
  }

  lemma EscapeRunEnd(before: Str, bytes: seq<Byte>, after: Str)
    requires PERCENT !in after
    ensures RunEnd(before + EscapeBytes(bytes) + after, |before|) == |before| + |EscapeBytes(bytes)|
  {
    forall k: nat | k < |bytes| ensures GroupAt(EscapeBytes(bytes), 3 * k) {
      EscapeBytesGroup(bytes, k);
    }
    RunEndOfGroups(before, EscapeBytes(bytes), after, |bytes|);
  }

  /** A single run of valid uppercase hex groups, with no `%` anywhere else,
      is replaced by the UTF-8 decoding of its bytes. */
  lemma DecodeOneRun(before: Str, bytes: seq<Byte>, after: Str)
    requires |bytes| > 0 && PERCENT !in before && PERCENT !in after
    ensures Decoded(before + EscapeBytes(bytes) + after) == Success(before + Utf8.Decode(bytes) + after)
  {
    var run := EscapeBytes(bytes);
    var s := before + run + after;
    var start, end := |before|, |before| + |run|;
    DecodeSkip(s, 0, start, s);
    EscapeGroupAt(before, bytes, after, 0);
    EscapeRunEnd(before, bytes, after);
    assert s[start..end] == run;
    ParseEscapeBytes(bytes);
    EscapeBytesAt(bytes, 0);
    var decoded := Replace(s, run, Utf8.Decode(bytes));
    assert DecodeFrom(s, start, s) == DecodeFrom(s, end, decoded);
    ReplaceOnce(before, run, after, Utf8.Decode(bytes));
    forall i | end <= i < |s| ensures s[i] != PERCENT {
      assert s[i] == after[i - end];
    }
    DecodeSkip(s, end, |s|, decoded);
  }

  // ---------------------------------------------------------------------
  // The round trip
  // ---------------------------------------------------------------------

  /** `decode` inverts `encode` on a string without `%` that is a passing
      prefix, one block of escapable non-surrogate units, and a passing
      suffix. */
  lemma RoundTrip(prefix: Str, block: Str, suffix: Str, exceptions: set<CodeUnit>)
    requires PERCENT !in prefix && PERCENT !in block && PERCENT !in suffix
    requires forall k | 0 <= k < |prefix| :: PassesThrough(prefix[k], exceptions)
    requires forall k | 0 <= k < |suffix| :: PassesThrough(suffix[k], exceptions)
    requires forall k | 0 <= k < |block| :: !PassesThrough(block[k], exceptions) && !Utf8.IsSurrogate(block[k])
    ensures Decoded(Encoded(prefix + block + suffix, exceptions)) == Success(prefix + block + suffix)
  {
    var s := prefix + block + suffix;
    SinglePassWithoutPercent(s, exceptions);
    EscapeEachConcat(prefix + block, suffix, exceptions);
    EscapeEachConcat(prefix, block, exceptions);
    EscapeEachAllPass(prefix, exceptions);
    EscapeEachAllPass(suffix, exceptions);
    EscapeEachNonePass(block, exceptions);
    var bytes := Utf8.EncodeUnits(block);
    if block == [] {
      assert Encoded(s, exceptions) == s;
      DecodeSkip(s, 0, |s|, s);
    } else {
      assert |Utf8.EncodeUnit(block[0])| >= 1;
      DecodeOneRun(prefix, bytes, suffix);
      Utf8.DecodeEncodeUnits(block);
    }
  }

  /** `encodeValue` never escapes an ignorable unit of the value, `=`
      among them. */
  lemma ValueKeepsIgnorable(value: Str, c: CodeUnit)
    requires c in value && IsIgnorable(c)
    ensures c in EncodedValue(value)
  {
    var k :| 0 <= k < |value| && value[k] == c;
    assert c in ValueExceptions(value);
    EncodeFromKeeps(value, ValueExceptions(value), 0, value, c);
  }

  /** Without `%`, `encodeValue` is the single pass that keeps ignorable
      units and escapes every other unit that is not safe. */
  lemma ValueSinglePass(value: Str)
    requires PERCENT !in value
    ensures EncodedValue(value) == EscapeEach(value, Ignorable)
  {
    EncodedValueIgnorable(value);
    SinglePassWithoutPercent(value, Ignorable);
  }

  /** The round trip for values: `decode(encodeValue(s)) == s` for a value
      whose units that are neither safe nor ignorable form one block
      without surrogates, and which has no `%`. */
  lemma ValueRoundTrip(prefix: Str, block: Str, suffix: Str)
    requires PERCENT !in prefix && PERCENT !in block && PERCENT !in suffix
    requires forall k | 0 <= k < |prefix| :: PassesThrough(prefix[k], Ignorable)
    requires forall k | 0 <= k < |suffix| :: PassesThrough(suffix[k], Ignorable)
    requires forall k | 0 <= k < |block| :: !PassesThrough(block[k], Ignorable) && !Utf8.IsSurrogate(block[k])
    ensures Decoded(EncodedValue(prefix + block + suffix)) == Success(prefix + block + suffix)
  {
    EncodedValueIgnorable(prefix + block + suffix);
    RoundTrip(prefix, block, suffix, Ignorable);
  }

  // ---------------------------------------------------------------------
  // Worked inputs
  // ---------------------------------------------------------------------

  /** `encode("a:b", {})` is `a%3Ab`; with `:` as an exception it is `a:b`. */
  lemma EncodeColonExamples()
    ensures Encoded(Lit("a:b"), {}) == Lit("a%3Ab")
    ensures Encoded(Lit("a:b"), {':' as int}) == Lit("a:b")
  {
    var s := Lit("a:b");
    assert s == [97, 58, 98];
    SinglePassWithoutPercent(s, {});
    assert EscapeEach(s, {}) == [97] + Escape(58) + [98] by {
      assert s[1..] == [58, 98] && s[1..][1..] == [98];
    }
    assert Utf8.EncodeUnit(58) == [58];
    assert Escape(58) == [37, 51, 65];
    assert Lit("a%3Ab") == [97, 37, 51, 65, 98];
    PassingUnchanged(s, {':' as int});
  }

  /** One step of `encode` at an escapable unit. */
  lemma EncodeFromEscapes(decoded: Str, exceptions: set<CodeUnit>, i: nat, encoded: Str)
    requires i < |decoded| && !PassesThrough(decoded[i], exceptions)
    ensures EncodeFrom(decoded, exceptions, i, encoded)
      == EncodeFrom(decoded, exceptions, i + 1, Replace(encoded, [decoded[i]], Escape(decoded[i])))
  {
  }

  /** The three replacements `encode("% %", {})` performs, one at a time. */
  lemma PercentSpaceFirstReplace(p: CodeUnit, sp: CodeUnit, d2: CodeUnit, d5: CodeUnit)
    requires p == 37 && sp == 32 && d2 == 50 && d5 == 53
    ensures Replace([p, sp, p], [p], [p, d2, d5]) == [p, d2, d5, sp, p, d2, d5]
  {
    var e := [p, d2, d5];
    ReplaceUnitConcat([p], [sp, p], p, e);
    ReplaceUnitConcat([sp], [p], p, e);
    ReplaceUnitSingle(p, p, e);
    ReplaceUnitSingle(sp, p, e);
    assert [p, sp, p] == [p] + ([sp] + [p]);
  }

  lemma PercentSpaceSecondReplace(p: CodeUnit, sp: CodeUnit, d2: CodeUnit, d5: CodeUnit, d0: CodeUnit)
    requires p == 37 && sp == 32 && d2 == 50 && d5 == 53 && d0 == 48
    ensures Replace([p, d2, d5, sp, p, d2, d5], [sp], [p, d2, d0]) == [p, d2, d5, p, d2, d0, p, d2, d5]
  {
    var e := [p, d2, d0];
    ReplaceUnitConcat([p, d2, d5], [sp] + [p, d2, d5], sp, e);
    ReplaceUnitConcat([sp], [p, d2, d5], sp, e);
    ReplaceUnitSingle(sp, sp, e);
    ReplaceAbsent([p, d2, d5], [sp], e);
    assert [p, d2, d5, sp, p, d2, d5] == [p, d2, d5] + ([sp] + [p, d2, d5]);
  }

  lemma PercentSpaceThirdReplace(p: CodeUnit, d2: CodeUnit, d5: CodeUnit, d0: CodeUnit)
    requires p == 37 && d2 == 50 && d5 == 53 && d0 == 48
    ensures Replace([p, d2, d5, p, d2, d0, p, d2, d5], [p], [p, d2, d5])
      == [p, d2, d5, d2, d5, p, d2, d5, d2, d0, p, d2, d5, d2, d5]
  {
    var e := [p, d2, d5];
    ReplaceUnitGroup(p, d2, d5, e);
    ReplaceUnitGroup(p, d2, d0, e);
    ReplaceUnitConcat([p, d2, d5], [p, d2, d0] + [p, d2, d5], p, e);
    ReplaceUnitConcat([p, d2, d0], [p, d2, d5], p, e);
    assert [p, d2, d5, p, d2, d0, p, d2, d5] == [p, d2, d5] + ([p, d2, d0] + [p, d2, d5]);
  }

  /** A three-unit string that starts with the target and holds it nowhere
      else. */
  lemma ReplaceUnitGroup(c: CodeUnit, x: CodeUnit, y: CodeUnit, replacement: Str)
    requires x != c && y != c
    ensures Replace([c, x, y], [c], replacement) == replacement + [x, y]
  {
    ReplaceUnitConcat([c], [x, y], c, replacement);
    ReplaceUnitSingle(c, c, replacement);
    ReplaceAbsent([x, y], [c], replacement);
    assert [c, x, y] == [c] + [x, y];
  }

  /** With `%` present the replace loop is not a single pass: the `%` of
      the escapes written earlier is escaped again at every later `%` index,
      so `% %` becomes `%2525%2520%2525`. */
  lemma PercentEscapedAgain()
    ensures Encoded(Lit("% %"), {}) == Lit("%2525%2520%2525")
  {
    assert Lit("% %") == [37, 32, 37];
    assert Lit("%2525%2520%2525") == [37, 50, 53, 50, 53, 37, 50, 53, 50, 48, 37, 50, 53, 50, 53];
    PercentSpaceEncoded([37, 32, 37]);
  }

  /** `encode` on the units of `% %`, one replacement after another. */
  lemma PercentSpaceEncoded(s: Str)
    requires s == [37, 32, 37]
    ensures Encoded(s, {}) == [37, 50, 53, 50, 53, 37, 50, 53, 50, 48, 37, 50, 53, 50, 53]
  {
    var e37, e32 := Escape(37), Escape(32);
    assert e37 == [37, 50, 53];
    assert e32 == [37, 50, 48];
    var r1: Str := [37, 50, 53, 32, 37, 50, 53];
    var r2: Str := [37, 50, 53, 37, 50, 48, 37, 50, 53];
    var r3: Str := [37, 50, 53, 50, 53, 37, 50, 53, 50, 48, 37, 50, 53, 50, 53];
    PercentSpaceFirstReplace(37, 32, 50, 53);
    assert Replace(s, [37], e37) == r1;
    EncodeFromEscapes(s, {}, 0, s);
    PercentSpaceSecondReplace(37, 32, 50, 53, 48);
    assert Replace(r1, [32], e32) == r2;
    EncodeFromEscapes(s, {}, 1, r1);
    PercentSpaceThirdReplace(37, 50, 53, 48);
    assert Replace(r2, [37], e37) == r3;
    EncodeFromEscapes(s, {}, 2, r2);
    assert EncodeFrom(s, {}, 3, r3) == r3;
  }

  /** A single left-to-right escaping pass escapes each unit once:
      `% %` becomes `%25%20%25`. */
  lemma PercentEscapedOnce()
    ensures EscapeEach(Lit("% %"), {}) == Lit("%25%20%25")
  {
    var s := Lit("% %");
    assert s == [37, 32, 37];
    assert Escape(37) == [37, 50, 53];
    assert Escape(32) == [37, 50, 48];
    assert EscapeEach(s, {}) == Escape(37) + Escape(32) + Escape(37) by {
      assert s[1..] == [32, 37] && s[1..][1..] == [37];
    }
  }

  /** With `%` among other escaped units the round trip fails: the replace
      of `%` escapes again the `%` of the escape written for the space, so
      `encode(" %")` is `%2520%25`, and decoding that gives `%20%`. */
  lemma PercentAfterEscape()
    ensures Encoded(Lit(" %"), {}) == Lit("%2520%25")
    ensures Decoded(Lit("%2520%25")) == Success(Lit("%20%"))
    ensures Decoded(Encoded(Lit(" %"), {})) != Success(Lit(" %"))
  {
    assert Lit(" %") == [32, 37];
    assert Lit("%2520%25") == [37, 50, 53, 50, 48, 37, 50, 53];
    assert Lit("%20%") == [37, 50, 48, 37];
    SpacePercentEncoded([32, 37]);
    SpacePercentDecoded([37, 50, 53, 50, 48, 37, 50, 53]);
  }

  /** `encode` on the units of ` %`: first every space, then every `%`,
      the one just written included. */
  lemma SpacePercentEncoded(s: Str)
    requires s == [32, 37]
    ensures Encoded(s, {}) == [37, 50, 53, 50, 48, 37, 50, 53]
  {
    SpacePercentEscapes();
    var r1: Str := [37, 50, 48, 37];
    var r2: Str := [37, 50, 53, 50, 48, 37, 50, 53];
    SpacePercentFirstReplace(s, 32, 37, 50, 48);
    EncodeFromEscapes(s, {}, 0, s);
    SpacePercentSecondReplace(r1, 37, 50, 48, 53);
    EncodeFromEscapes(s, {}, 1, r1);
    assert EncodeFrom(s, {}, 2, r2) == r2;
  }

  /** The escapes of a space and of `%`, and that both are escaped. */
  lemma SpacePercentEscapes()
    ensures Escape(32) == [37, 50, 48] && Escape(37) == [37, 50, 53]
    ensures !PassesThrough(32, {}) && !PassesThrough(37, {})
  {
  }

  lemma SpacePercentFirstReplace(s: Str, sp: CodeUnit, p: CodeUnit, d2: CodeUnit, d0: CodeUnit)
    requires sp == 32 && p == 37 && d2 == 50 && d0 == 48
    requires s == [sp, p]
    ensures Replace(s, [sp], [p, d2, d0]) == [p, d2, d0, p]
  {
    var e := [p, d2, d0];
    ReplaceUnitConcat([sp], [p], sp, e);
    ReplaceUnitSingle(sp, sp, e);
    ReplaceUnitSingle(p, sp, e);
    assert s == [sp] + [p];
  }

  lemma SpacePercentSecondReplace(r: Str, p: CodeUnit, d2: CodeUnit, d0: CodeUnit, d5: CodeUnit)
    requires p == 37 && d2 == 50 && d0 == 48 && d5 == 53
    requires r == [p, d2, d0, p]
    ensures Replace(r, [p], [p, d2, d5]) == [p, d2, d5, d2, d0, p, d2, d5]
  {
    var e := [p, d2, d5];
    ReplaceUnitConcat([p, d2, d0], [p], p, e);
    ReplaceUnitGroup(p, d2, d0, e);
    ReplaceUnitSingle(p, p, e);
    assert r == [p, d2, d0] + [p];
  }

  /** `decode("%2520%25")`: the first run `%25` is replaced everywhere,
      which also takes the `%25` of the second run, so nothing is left for
      that run to replace. */
  lemma SpacePercentDecoded(t: Str)
    requires t == [37, 50, 53, 50, 48, 37, 50, 53]
    ensures Decoded(t) == Success([37, 50, 48, 37])
  {
    var run: Str := [37, 50, 53];
    var d1: Str := [37, 50, 48, 37];
    SpacePercentRuns(t);
    PercentGroup(run);
    DecodeFromRun(t, 0, t, [0x25]);
    PercentRunReplaced(t, run, d1);
    assert DecodeFrom(t, 3, d1) == DecodeFrom(t, 5, d1) by {
      assert !GroupAt(t, 3) && !GroupAt(t, 4);
    }
    DecodeFromRun(t, 5, d1, [0x25]);
    PercentRunAbsent(d1, run);
    assert DecodeFrom(t, 8, d1) == Success(d1);
  }

  /** The two runs of `%2520%25`: `%25` at 0 and `%25` at 5. */
  lemma SpacePercentRuns(t: Str)
    requires t == [37, 50, 53, 50, 48, 37, 50, 53]
    ensures GroupAt(t, 0) && RunEnd(t, 0) == 3 && t[0..3] == [37, 50, 53]
    ensures !GroupAt(t, 3) && !GroupAt(t, 4)
    ensures GroupAt(t, 5) && RunEnd(t, 5) == 8 && t[5..8] == [37, 50, 53]
  {
    assert GroupAt(t, 0) && !GroupAt(t, 3);
    assert GroupAt(t, 5) && !GroupAt(t, 8);
  }

  /** `%25` parses to the byte of `%`. */
  lemma PercentGroup(run: Str)
    requires run == [37, 50, 53]
    ensures ParseGroups(run) == Some([0x25]) && Utf8.Decode([0x25]) == [37]
  {
    assert run == EscapeBytes([0x25]);
    ParseEscapeBytes([0x25]);
  }

  /** The whole-string replace of `%25` by `%` in `%2520%25`. */
  lemma PercentRunReplaced(t: Str, target: Str, d1: Str)
    requires t == [37, 50, 53, 50, 48, 37, 50, 53]
    requires target == [37, 50, 53] && d1 == [37, 50, 48, 37]
    ensures Replace(t, target, [37]) == d1
  {
    var rest: Str := [50, 48, 37, 50, 53];
    assert t[..3] == target && t[3..] == rest;
    assert Replace(target, target, [37]) == [37] by {
      assert target[..3] == target && target[3..] == [];
    }
    assert Replace([48] + target, target, [37]) == [48, 37] by {
      assert ([48] + target)[..3][0] != target[0] && ([48] + target)[1..] == target;
    }
    assert Replace(rest, target, [37]) == [50, 48, 37] by {
      assert rest[..3][0] != target[0] && rest[1..] == [48] + target;
    }
  }

  /** `%25` no longer occurs in `%20%`. */
  lemma PercentRunAbsent(d1: Str, run: Str)
    requires d1 == [37, 50, 48, 37] && run == [37, 50, 53]
    ensures Replace(d1, run, [37]) == d1
  {
    assert d1[..3][2] != run[2] && d1[1..] == [50, 48, 37];
    assert Replace([48, 37], run, [37]) == [48, 37];
    assert Replace(d1[1..], run, [37]) == d1[1..] by {
      assert d1[1..][..3][0] != run[0] && d1[1..][1..] == [48, 37];
    }
    assert [d1[0]] + d1[1..] == d1;
  }

  /** The round trip can fail without any `%` in the input. `decode`
      replaces an earlier run across the whole string, and so also
      rewrites the same text at the head of a later, longer run, which
      then is no longer found: `encode(" x \"")` is `%20x%20%22`, and
      decoding that gives ` x %22`. */
  lemma LaterRunHidden()
    ensures Encoded(Lit(" x \""), {}) == Lit("%20x%20%22")
    ensures Decoded(Lit("%20x%20%22")) == Success(Lit(" x %22"))
  {
    assert Lit(" x \"") == [32, 120, 32, 34];
    assert Lit("%20x%20%22") == [37, 50, 48, 120, 37, 50, 48, 37, 50, 50];
    assert Lit(" x %22") == [32, 120, 32, 37, 50, 50];
    SpaceQuoteEncoded([32, 120, 32, 34]);
    SpaceQuoteDecoded([37, 50, 48, 120, 37, 50, 48, 37, 50, 50]);
  }

  /** `encode` on the units of ` x "`: the second space finds nothing left
      to replace, and the quote is replaced once. */
  lemma SpaceQuoteEncoded(s: Str)
    requires s == [32, 120, 32, 34]
    ensures Encoded(s, {}) == [37, 50, 48, 120, 37, 50, 48, 37, 50, 50]
  {
    SpaceQuoteEscapes();
    var r1: Str := [37, 50, 48, 120, 37, 50, 48, 34];
    var r2: Str := [37, 50, 48, 120, 37, 50, 48, 37, 50, 50];
    SpaceQuoteFirstReplace(s, 32, 120, 34, 37, 50, 48);
    EncodeFromEscapes(s, {}, 0, s);
    EncodeFromPasses(s, {}, 1, r1);
    ReplaceAbsent(r1, [32], Escape(32));
    EncodeFromEscapes(s, {}, 2, r1);
    SpaceQuoteLastReplace(r1, 120, 34, 37, 50, 48);
    EncodeFromEscapes(s, {}, 3, r1);
    assert EncodeFrom(s, {}, 4, r2) == r2;
  }

  /** The escapes of a space and of a quote, and that both are escaped. */
  lemma SpaceQuoteEscapes()
    ensures Escape(32) == [37, 50, 48] && Escape(34) == [37, 50, 50]
    ensures !PassesThrough(32, {}) && PassesThrough(120, {}) && !PassesThrough(34, {})
  {
  }

  /** One step of `encode` at a unit that passes through. */
  lemma EncodeFromPasses(decoded: Str, exceptions: set<CodeUnit>, i: nat, encoded: Str)
    requires i < |decoded| && PassesThrough(decoded[i], exceptions)
    ensures EncodeFrom(decoded, exceptions, i, encoded) == EncodeFrom(decoded, exceptions, i + 1, encoded)
  {
  }

  /** The first replacement, of every space. */
  lemma SpaceQuoteFirstReplace(s: Str, sp: CodeUnit, x: CodeUnit, q: CodeUnit, p: CodeUnit, d2: CodeUnit, d0: CodeUnit)
    requires sp == 32 && x == 120 && q == 34 && p == 37 && d2 == 50 && d0 == 48
    requires s == [sp, x, sp, q]
    ensures Replace(s, [sp], [p, d2, d0]) == [p, d2, d0, x, p, d2, d0, q]
  {
    var e := [p, d2, d0];
    ReplaceUnitConcat([sp], [x, sp, q], sp, e);
    ReplaceUnitConcat([x], [sp, q], sp, e);
    ReplaceUnitConcat([sp], [q], sp, e);
    ReplaceUnitSingle(sp, sp, e);
    ReplaceUnitSingle(x, sp, e);
    ReplaceUnitSingle(q, sp, e);
    assert s == [sp] + ([x] + ([sp] + [q]));
  }

  /** The last replacement, of the one quote. */
  lemma SpaceQuoteLastReplace(r: Str, x: CodeUnit, q: CodeUnit, p: CodeUnit, d2: CodeUnit, d0: CodeUnit)
    requires x == 120 && q == 34 && p == 37 && d2 == 50 && d0 == 48
    requires r == [p, d2, d0, x, p, d2, d0, q]
    ensures Replace(r, [q], [p, d2, d2]) == [p, d2, d0, x, p, d2, d0, p, d2, d2]
  {
    var head := [p, d2, d0, x, p, d2, d0];
    ReplaceOnce(head, [q], [], [p, d2, d2]);
    assert r == head + [q] + [];
  }

  /** `decode("%20x%20%22")`: the first run `%20` is replaced everywhere,
      so the second run `%20%22` is gone from the result before it is
      reached. */
  lemma SpaceQuoteDecoded(t: Str)
    requires t == [37, 50, 48, 120, 37, 50, 48, 37, 50, 50]
    ensures Decoded(t) == Success([32, 120, 32, 37, 50, 50])
  {
    var first: Str := [37, 50, 48];
    var second: Str := [37, 50, 48, 37, 50, 50];
    var d1: Str := [32, 120, 32, 37, 50, 50];
    SpaceQuoteRuns(t);
    SpaceQuoteGroups(first, second);
    DecodeFromRun(t, 0, t, [0x20]);
    SpaceRunReplaced(t, first, d1);
    assert DecodeFrom(t, 3, d1) == DecodeFrom(t, 4, d1);
    DecodeFromRun(t, 4, d1, [0x20, 0x22]);
    SecondRunAbsent(d1, second, Utf8.Decode([0x20, 0x22]));
    assert DecodeFrom(t, 10, d1) == Success(d1);
  }

  /** One step of `decode`'s scan at a run that parses. */
  lemma DecodeFromRun(s: Str, p: nat, decoded: Str, bytes: seq<Byte>)
    requires p < |s| && GroupAt(s, p) && ParseGroups(s[p..RunEnd(s, p)]) == Some(bytes)
    ensures DecodeFrom(s, p, decoded)
      == DecodeFrom(s, RunEnd(s, p), Replace(decoded, s[p..RunEnd(s, p)], Utf8.Decode(bytes)))
  {
  }

  /** The two runs of `%20x%20%22`: `%20` at 0 and `%20%22` at 4. */
  lemma SpaceQuoteRuns(t: Str)
    requires t == [37, 50, 48, 120, 37, 50, 48, 37, 50, 50]
    ensures GroupAt(t, 0) && RunEnd(t, 0) == 3 && t[0..3] == [37, 50, 48]
    ensures !GroupAt(t, 3)
    ensures GroupAt(t, 4) && RunEnd(t, 4) == 10 && t[4..10] == [37, 50, 48, 37, 50, 50]
  {
    assert GroupAt(t, 0) && !GroupAt(t, 3);
    assert GroupAt(t, 4) && GroupAt(t, 7) && !GroupAt(t, 10);
  }

  /** What the two runs parse to, and the text of the first. */
  lemma SpaceQuoteGroups(first: Str, second: Str)
    requires first == [37, 50, 48] && second == [37, 50, 48, 37, 50, 50]
    ensures ParseGroups(first) == Some([0x20]) && Utf8.Decode([0x20]) == [32]
    ensures ParseGroups(second) == Some([0x20, 0x22])
  {
    assert first == EscapeBytes([0x20]);
    ParseEscapeBytes([0x20]);
    assert second == EscapeBytes([0x20, 0x22]);
    ParseEscapeBytes([0x20, 0x22]);
  }

  /** The second run no longer occurs after the first replace. */
  lemma SecondRunAbsent(d1: Str, run: Str, replacement: Str)
    requires d1 == [32, 120, 32, 37, 50, 50] && run == [37, 50, 48, 37, 50, 50]
    ensures Replace(d1, run, replacement) == d1
  {
    assert d1[..|run|][0] != run[0];
    assert Replace(d1[1..], run, replacement) == d1[1..];
    assert [d1[0]] + d1[1..] == d1;
  }

  /** The whole-string replace of `%20` by a space in `%20x%20%22`. */
  lemma SpaceRunReplaced(t: Str, target: Str, d1: Str)
    requires t == [37, 50, 48, 120, 37, 50, 48, 37, 50, 50]
    requires target == [37, 50, 48] && d1 == [32, 120, 32, 37, 50, 50]
    ensures Replace(t, target, [32]) == d1
  {
    var tail: Str := [37, 50, 50];
    assert Replace([50, 50], target, [32]) == [50, 50];
    assert tail[..3][2] != target[2] && tail[1..] == [50, 50];
    assert Replace(tail, target, [32]) == tail;
    assert t[3..][..3][0] != target[0] && t[3..][1..] == target + tail;
    assert Replace(target + tail, target, [32]) == [32] + tail by {
      assert (target + tail)[..3] == target && (target + tail)[3..] == tail;
    }
    assert Replace(t[3..], target, [32]) == [120, 32] + tail;
    assert t[..3] == target;
  }

  /** `decode("x%3Dy")` is `x=y`. */
  lemma DecodeEqualsSignExample()
    ensures Decoded(Lit("x%3Dy")) == Success(Lit("x=y"))
  {
    assert Lit("x%3Dy") == [120, 37, 51, 68, 121];
    assert Lit("x=y") == [120, 61, 121];
    DecodeEqualsSign([120, 37, 51, 68, 121]);
  }

  lemma DecodeEqualsSign(s: Str)
    requires s == [120, 37, 51, 68, 121]
    ensures Decoded(s) == Success([120, 61, 121])
  {
    assert EscapeBytes([0x3D]) == [37, 51, 68];
    assert s == [120] + EscapeBytes([0x3D]) + [121];
    DecodeOneRun([120], [0x3D], [121]);
    assert [0x3D as Byte][1..] == [];
    assert Utf8.Decode([0x3D]) == [61];
    assert [120] + [61] + [121] == [120, 61, 121];
  }

  /** Lowercase hex is not a run: `decode("%3a")` is `%3a`. */
  lemma DecodeLowercaseExample()
    ensures Decoded(Lit("%3a")) == Success(Lit("%3a"))
  {
    var s := Lit("%3a");
    assert s == [37, 51, 97];
    forall i | 0 <= i < |s| ensures !GroupAt(s, i) {
      assert !IsRunDigit(s[2]);
    }
    DecodeWithoutRuns(s);
  }

  /** A run digit outside the hex digits raises NumberFormatException:
      `decode("%G1")` fails. */
  lemma DecodeNonHexExample()
    ensures Decoded(Lit("%G1")) == Failure(NumberFormat)
  {
    var s := Lit("%G1");
    assert s == [37, 71, 49];
    assert BadGroup(s, 0);
    DecodeFailsExactly(s);
  }
}
