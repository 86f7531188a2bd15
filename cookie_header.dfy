/** Reading the request's `Cookie` header: `getCookies` splits it into
    `name=value` tokens, decodes each name and value, and collects them in a
    map in which a later token overwrites an earlier one of the same name. */
module CookieHeader {
  import opened Base
  import opened JavaStrings
  import opened PercentCodec
  import opened CodecProperties

  /** What `ConverterStrategy.convert(value, name)` does with one cookie:
      it returns a string, returns `null`, or throws `ConverterException`. */
  datatype Conversion = Converted(value: Str) | NoValue | Thrown

  /** A converter, as a function of the encoded value and the decoded name. */
  type Converter = (Str, Str) -> Conversion

  const EQUALS: CodeUnit := '=' as int

  /** The token separator `"; "` of the header. */
  const SEPARATOR: Str := [';' as int, ' ' as int]

  // ---------------------------------------------------------------------
  // One token
  // ---------------------------------------------------------------------

  /** `decodeValue(encodedValue, decodedName)`: the converter's string when
      it gives one, and `decode` when it returns `null`, throws
      `ConverterException` or there is no converter. */
  function DecodedValue(converter: Option<Converter>, encodedValue: Str, decodedName: Str): (r: Result<Str>)
    ensures converter.Some? && converter.value(encodedValue, decodedName).Converted? ==>
      r == Success(converter.value(encodedValue, decodedName).value)
    ensures converter.None? || !converter.value(encodedValue, decodedName).Converted? ==>
      r == Decoded(encodedValue)
  {
    var conversion := if converter.Some? then converter.value(encodedValue, decodedName) else NoValue;
    if conversion.Converted? then Success(conversion.value) else Decoded(encodedValue)
  }

  /** `cookie.split("=")[0]`; an empty array makes the index throw. */
  function TokenName(cookie: Str): Result<Str> {
    var pieces := Split(cookie, [EQUALS]);
    if |pieces| == 0 then Failure(ArrayIndexOutOfBounds) else Success(pieces[0])
  }

  /** `cookie.substring(cookie.indexOf('=') + 1)`. */
  function TokenValue(cookie: Str): Str {
    cookie[IndexOf(cookie, EQUALS) + 1..]
  }

  /** The decoded name and value of one token, or the exception that the
      loop body of `getCookies` raises for it (in the order it raises them:
      the split, the name's `decode`, then `decodeValue`). */
  function TokenEntry(cookie: Str, converter: Option<Converter>): Result<(Str, Str)> {
    Entry(TokenName(cookie), TokenValue(cookie), converter)
  }

  /** The entry made of the split name and the value text of a token. */
  function Entry(encodedName: Result<Str>, encodedValue: Str, converter: Option<Converter>): Result<(Str, Str)> {
    match encodedName
    case Failure(e) => Failure(e)
    case Success(encodedName) =>
      match Decoded(encodedName)
      case Failure(e) => Failure(e)
      case Success(decodedName) =>
        match DecodedValue(converter, encodedValue, decodedName)
        case Failure(e) => Failure(e)
        case Success(decodedValue) => Success((decodedName, decodedValue))
  }

  /** The name is the text before the first `=` and the value the text after
      it; a token without `=` is both name and value. */
  lemma TokenParts(cookie: Str)
    ensures EQUALS !in cookie ==> TokenName(cookie) == Success(cookie) && TokenValue(cookie) == cookie
    ensures EQUALS in cookie && TokenName(cookie).Success? ==>
      TokenName(cookie).value == cookie[..IndexOf(cookie, EQUALS)] &&
      EQUALS !in TokenName(cookie).value && cookie == TokenName(cookie).value + [EQUALS] + TokenValue(cookie)
  {
    if EQUALS !in cookie {
      TokenWithoutEquals(cookie);
    } else if TokenName(cookie).Success? {
      TokenWithEquals(cookie);
    }
  }

  lemma TokenWithoutEquals(cookie: Str)
    requires EQUALS !in cookie
    ensures TokenName(cookie) == Success(cookie) && TokenValue(cookie) == cookie
  {
    SplitPiecesAbsent(cookie, [EQUALS]);
    assert cookie[0..] == cookie;
  }

  lemma TokenWithEquals(cookie: Str)
    requires EQUALS in cookie && TokenName(cookie).Success?
    ensures TokenName(cookie).value == cookie[..IndexOf(cookie, EQUALS)]
    ensures cookie == cookie[..IndexOf(cookie, EQUALS)] + [EQUALS] + TokenValue(cookie)
  {
    var k := IndexOf(cookie, EQUALS);
    var pieces := SplitPieces(cookie, [EQUALS]);
    SplitUnitSingle(cookie, EQUALS);
    SplitUnitFirst(cookie, EQUALS);
    var r := DropTrailingEmpty(pieces);
    assert Split(cookie, [EQUALS]) == r;
    assert r[0] == pieces[0];
    assert cookie == cookie[..k] + [EQUALS] + cookie[k + 1..];
  }

  /** Only a token made of `=` alone has no name: `split` leaves nothing
      of it, and looking for the first piece throws. */
  lemma TokenNameFails(cookie: Str)
    ensures TokenName(cookie).Failure? <==> cookie != [] && forall i | 0 <= i < |cookie| :: cookie[i] == EQUALS
    ensures TokenName(cookie).Failure? ==> TokenName(cookie).error == ArrayIndexOutOfBounds
  {
    var pieces := SplitPieces(cookie, [EQUALS]);
    SplitUnitSingle(cookie, EQUALS);
    SplitUnitAllEmpty(cookie, EQUALS);
    if EQUALS in cookie {
      var r := DropTrailingEmpty(pieces);
      assert Split(cookie, [EQUALS]) == r;
      if r == [] {
        assert forall i | 0 <= i < |pieces| :: pieces[i] == [];
        assert cookie != [];
      }
    } else if cookie != [] {
      assert cookie[0] != EQUALS;
    }
  }

  // ---------------------------------------------------------------------
  // The whole header
  // ---------------------------------------------------------------------

  /** The entry of every token, in header order. */
  function Entries(cookies: seq<Str>, converter: Option<Converter>): (r: seq<Result<(Str, Str)>>)
    ensures |r| == |cookies|
    ensures forall j | 0 <= j < |cookies| :: r[j] == TokenEntry(cookies[j], converter)
  {
    seq(|cookies|, j requires 0 <= j < |cookies| => TokenEntry(cookies[j], converter))
  }

  /** The `getCookies` loop from entry `i` on, with `result` the map filled
      so far: each entry is put into the map, and the first exception ends
      the loop. */
  function ParseFrom(entries: seq<Result<(Str, Str)>>, i: nat, result: map<Str, Str>): Result<map<Str, Str>>
    requires i <= |entries|
    decreases |entries| - i
  {
    if i == |entries| then Success(result)
    else
      match entries[i]
      case Failure(e) => Failure(e)
      case Success(entry) => ParseFrom(entries, i + 1, result[entry.0 := entry.1])
  }

  /** `getCookies(cookieHeader)`. */
  function ParsedHeader(cookieHeader: Str, converter: Option<Converter>): Result<map<Str, Str>> {
    ParseFrom(Entries(Split(cookieHeader, SEPARATOR), converter), 0, map[])
  }

  /** `getCookies(cookieHeader)`, step by step. */
  method GetCookies(cookieHeader: Str, converter: Option<Converter>) returns (r: Result<map<Str, Str>>)
    ensures r == ParsedHeader(cookieHeader, converter)
  {
    var result: map<Str, Str> := map[];
    var cookies := Split(cookieHeader, SEPARATOR);
    ghost var entries := Entries(cookies, converter);
    for i := 0 to |cookies|
      invariant ParseFrom(entries, i, result) == ParsedHeader(cookieHeader, converter)
    {
      var cookie := cookies[i];
      assert entries[i] == Entry(TokenName(cookie), TokenValue(cookie), converter);
      var nameParts := Split(cookie, [EQUALS]);
      if |nameParts| == 0 {
        return Failure(ArrayIndexOutOfBounds);
      }
      var encodedName := nameParts[0];
      assert TokenName(cookie) == Success(encodedName);
      var decodedName := Decode(encodedName);
      if decodedName.Failure? {
        return Failure(decodedName.error);
      }
      var encodedValue := cookie[IndexOf(cookie, EQUALS) + 1..];
      var decodedValue := DecodedValue(converter, encodedValue, decodedName.value);
      if decodedValue.Failure? {
        return Failure(decodedValue.error);
      }
      result := result[decodedName.value := decodedValue.value];
    }
    return Success(result);
  }

  /** The loop completes exactly when every remaining entry is one, and
      otherwise raises the exception of the first that is not. */
  lemma {:induction false} ParseFromFails(entries: seq<Result<(Str, Str)>>, i: nat, result: map<Str, Str>)
    requires i <= |entries|
    ensures ParseFrom(entries, i, result).Success? <==> forall j | i <= j < |entries| :: entries[j].Success?
    ensures forall j | i <= j < |entries| ::
      entries[j].Failure? && (forall k | i <= k < j :: entries[k].Success?) ==>
      ParseFrom(entries, i, result) == Failure(entries[j].error)
    decreases |entries| - i
  {
    if i < |entries| && entries[i].Success? {
      ParseFromFails(entries, i + 1, result[entries[i].value.0 := entries[i].value.1]);
    }
  }

  /** Entry `j` is one and carries `name`. */
  predicate NamedAt(entries: seq<Result<(Str, Str)>>, j: int, name: Str)
    requires 0 <= j < |entries|
  {
    entries[j].Success? && entries[j].value.0 == name
  }

  /** The map holds the names of the earlier map and of the entries; a name
      that no later entry repeats keeps its entry's value (so the last
      token of a name wins), and a name no entry has keeps its old value. */
  lemma {:induction false} ParseFromEntries(entries: seq<Result<(Str, Str)>>, i: nat, result: map<Str, Str>)
    requires i <= |entries| && ParseFrom(entries, i, result).Success?
    ensures forall name :: name in ParseFrom(entries, i, result).value <==>
      name in result || exists j | i <= j < |entries| :: NamedAt(entries, j, name)
    ensures forall j | i <= j < |entries| && entries[j].Success? &&
      (forall k | j < k < |entries| :: !NamedAt(entries, k, entries[j].value.0)) ::
      entries[j].value.0 in ParseFrom(entries, i, result).value &&
      ParseFrom(entries, i, result).value[entries[j].value.0] == entries[j].value.1
    ensures forall name | name in result && (forall j | i <= j < |entries| :: !NamedAt(entries, j, name)) ::
      ParseFrom(entries, i, result).value[name] == result[name]
    decreases |entries| - i
  {
    if i < |entries| {
      var entry := entries[i].value;
      var next := result[entry.0 := entry.1];
      ParseFromEntries(entries, i + 1, next);
      var m := ParseFrom(entries, i, result).value;
      assert m == ParseFrom(entries, i + 1, next).value;
      assert NamedAt(entries, i, entry.0);
      forall name ensures name in m <==> name in result || exists j | i <= j < |entries| :: NamedAt(entries, j, name) {
        if name in next && name !in result {
          assert name == entry.0;
        }
      }
      forall j | i <= j < |entries| && entries[j].Success? &&
        (forall k | j < k < |entries| :: !NamedAt(entries, k, entries[j].value.0))
        ensures entries[j].value.0 in m && m[entries[j].value.0] == entries[j].value.1
      {
        if j == i {
          assert entry.0 in next && next[entry.0] == entry.1;
        }
      }
    }
  }

  /** A converter that never gives a string leaves every entry as `decode`
      alone makes it. */
  lemma TokenEntryFallback(cookie: Str, f: Converter)
    requires forall value, name :: !f(value, name).Converted?
    ensures TokenEntry(cookie, Some(f)) == TokenEntry(cookie, None)
  {
    EntryFallback(TokenName(cookie), TokenValue(cookie), f);
  }

  lemma EntryFallback(encodedName: Result<Str>, encodedValue: Str, f: Converter)
    requires forall value, name :: !f(value, name).Converted?
    ensures Entry(encodedName, encodedValue, Some(f)) == Entry(encodedName, encodedValue, None)
  {
    match encodedName
    case Failure(_) =>
    case Success(n) =>
      match Decoded(n)
      case Failure(_) =>
      case Success(decodedName) =>
        assert !f(encodedValue, decodedName).Converted?;
  }

  /** Without a string from the converter, parsing is the same as without a
      converter: a `null` result and a `ConverterException` fall back to
      `decode`. */
  lemma ConverterFallback(cookieHeader: Str, f: Converter)
    requires forall value, name :: !f(value, name).Converted?
    ensures ParsedHeader(cookieHeader, Some(f)) == ParsedHeader(cookieHeader, None)
  {
    var cookies := Split(cookieHeader, SEPARATOR);
    forall j | 0 <= j < |cookies| ensures TokenEntry(cookies[j], Some(f)) == TokenEntry(cookies[j], None) {
      TokenEntryFallback(cookies[j], f);
    }
    assert Entries(cookies, Some(f)) == Entries(cookies, None);
  }

  /** A token `name=value` whose name holds no `=`: its entry is the
      decoded name and the decoded value. */
  lemma TokenEntryOf(name: Str, value: Str, converter: Option<Converter>)
    requires name != [] && EQUALS !in name
    requires Decoded(name).Success?
    ensures DecodedValue(converter, value, Decoded(name).value).Success? ==>
      TokenEntry(name + [EQUALS] + value, converter)
        == Success((Decoded(name).value, DecodedValue(converter, value, Decoded(name).value).value))
  {
    var cookie := name + [EQUALS] + value;
    var k := IndexOf(cookie, EQUALS);
    assert cookie[|name|] == EQUALS;
    assert k == |name|;
    assert cookie[..k] == name && cookie[k + 1..] == value;
    TokenParts(cookie);
    TokenNameFails(cookie);
    assert cookie[0] != EQUALS;
  }

  /** A header of two plain tokens, `a=1; b=2`, gives `{a: "1", b: "2"}`. */
  lemma TwoCookiesExample()
    ensures ParsedHeader(Lit("a=1; b=2"), None) == Success(map[Lit("a") := Lit("1"), Lit("b") := Lit("2")])
  {
    assert Lit("a=1; b=2") == [97, 61, 49, 59, 32, 98, 61, 50];
    assert Lit("a") == [97] && Lit("1") == [49] && Lit("b") == [98] && Lit("2") == [50];
    TwoCookies([97, 61, 49, 59, 32, 98, 61, 50]);
  }

  lemma TwoCookies(header: Str)
    requires header == [97, 61, 49, 59, 32, 98, 61, 50]
    ensures ParsedHeader(header, None) == Success(map[[97] := [49], [98] := [50]])
  {
    var cookies := Split(header, SEPARATOR);
    TwoTokens(header);
    OneToken(cookies[0], [97], [49]);
    OneToken(cookies[1], [98], [50]);
    var entries := Entries(cookies, None);
    assert entries[0] == Success(([97], [49])) && entries[1] == Success(([98], [50]));
    assert ParseFrom(entries, 0, map[]) == ParseFrom(entries, 1, map[[97] := [49]]);
    assert ParseFrom(entries, 1, map[[97] := [49]]) == ParseFrom(entries, 2, map[[97] := [49], [98] := [50]]);
  }

  lemma TwoTokens(header: Str)
    requires header == [97, 61, 49, 59, 32, 98, 61, 50]
    ensures Split(header, SEPARATOR) == [[97, 61, 49], [98, 61, 50]]
  {
    var first: Str, second: Str := [97, 61, 49], [98, 61, 50];
    assert header == Join([first, second], SEPARATOR) by {
      assert Join([first, second], SEPARATOR) == first + SEPARATOR + Join([second], SEPARATOR);
    }
    SplitOfJoin([first, second], SEPARATOR);
  }

  /** A token of one name unit and one value unit, none of them `%` or `=`. */
  lemma OneToken(cookie: Str, name: Str, value: Str)
    requires |name| == 1 && |value| == 1
    requires name[0] != EQUALS && name[0] != PERCENT && value[0] != PERCENT
    requires cookie == name + [EQUALS] + value
    ensures TokenEntry(cookie, None) == Success((name, value))
  {
    DecodeWithoutRuns(name);
    DecodeWithoutRuns(value);
    TokenEntryOf(name, value, None);
  }

  /** An escaped `=` in a value is decoded: `a=x%3Dy` gives `{a: "x=y"}`. */
  lemma EscapedEqualsExample()
    ensures ParsedHeader(Lit("a=x%3Dy"), None) == Success(map[Lit("a") := Lit("x=y")])
  {
    assert Lit("a=x%3Dy") == [97, 61, 120, 37, 51, 68, 121];
    assert Lit("a") == [97] && Lit("x=y") == [120, 61, 121];
    EscapedEquals([97, 61, 120, 37, 51, 68, 121]);
  }

  lemma EscapedEquals(header: Str)
    requires header == [97, 61, 120, 37, 51, 68, 121]
    ensures ParsedHeader(header, None) == Success(map[[97] := [120, 61, 121]])
  {
    var value: Str := [120, 37, 51, 68, 121];
    assert header == [97] + [EQUALS] + value;
    SplitPiecesAbsent(header, SEPARATOR);
    DecodeWithoutRuns([97]);
    DecodeEqualsSign(value);
    TokenEntryOf([97], value, None);
    var entries := Entries([header], None);
    assert entries == [Success(([97], [120, 61, 121]))];
    assert ParseFrom(entries, 0, map[]) == ParseFrom(entries, 1, map[[97] := [120, 61, 121]]);
  }

  /** A token made of `=` alone throws: `split("=")` of `==` is empty, and
      its first element does not exist. */
  lemma OnlyEqualsExample()
    ensures ParsedHeader(Lit("=="), None) == Failure(ArrayIndexOutOfBounds)
  {
    assert Lit("==") == [61, 61];
    OnlyEquals([61, 61]);
  }

  lemma OnlyEquals(header: Str)
    requires header == [61, 61]
    ensures ParsedHeader(header, None) == Failure(ArrayIndexOutOfBounds)
  {
    SplitPiecesAbsent(header, SEPARATOR);
    TokenNameFails(header);
    var entries := Entries([header], None);
    assert entries[0] == Failure(ArrayIndexOutOfBounds);
  }
}

