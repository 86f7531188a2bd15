# Cookies: a Dafny model of the java-cookie servlet store

This project models `org.jscookie.Cookies`, the servlet-side cookie store of
java-cookie. The store has four parts:

- **Reading cookies.** `get(name)` and `get()` parse the request's `Cookie`
  header. The header is split on `"; "` into `name=value` tokens, and the name
  and value of each token are percent-decoded. An optional converter may
  decode the value instead. The result is collected in a map in which a later
  token of the same name wins.
- **Writing cookies.** `set`, `set(name, value)`, `remove` and `remove(name)`
  resolve the attributes, percent-encode the name and the value, and build a
  `Set-Cookie` header `name=value[; Path=p][; Domain=d][; Secure]`. The header
  is added only while the response is not committed.
- **The percent codec.**
  - `encode` does one whole-string `replace` for every index whose character
    is not a digit, an ASCII letter, safe punctuation or an exception. Each
    replace substitutes the character's UTF-8 bytes as uppercase `%XX`.
  - `encodeValue` adds those of `/ : < = > ? @ [ ] { }` that occur in the
    value as exceptions.
  - `decode` finds the runs of `(%[0-9A-Z]{2})+` in the original string and
    replaces each run by the UTF-8 decoding of its bytes.
- **Attributes.** `merge` copies the fields another object has set.
  `extend(path "/", defaults, attributes)` gives the precedence
  "call over defaults over `/`".

Java strings are sequences of UTF-16 code units (`Base.Str`). `null` is
`Option.None`. The exceptions the code can raise are `Result.Failure` or
`Outcome.Fail`:

- `IllegalArgumentException` from the argument checks;
- `NumberFormatException` from `Integer.parseInt` on a run such as `%G1`;
- `ArrayIndexOutOfBoundsException` for a token made only of `=`.

The request's `Cookie` header is a constructor parameter (`None` when absent).
The response is a `Response` object with a `committed` flag and the list of
headers added to it.

Modules, one per file:

- `Base` (`base.dfy`): code units, bytes, and the Option, Result and Outcome
  types.
- `JavaStrings` (`java_strings.dfy`): `indexOf`, `replace` and `split`.
- `Utf8` (`utf8.dfy`): `getBytes("UTF-8")` and `new String(bytes, "UTF-8")`.
- `PercentCodec` (`percent_codec.dfy`): `encode`, `encodeValue` and `decode`,
  each as a method that works step by step like the Java code. Each is proved
  equal to a specification function.
- `CodecProperties` (`codec_properties.dfy`): lemmas about the codec,
  including the round trip.
- `CookieHeader` (`cookie_header.dfy`): `decodeValue` and `getCookies`.
- `CookieAttributes` (`attributes.dfy`): the `Attributes` class, `merge` and
  `extend`.
- `CookieStore` (`cookies.dfy`): the `Cookies` class and the `Set-Cookie`
  header.

### Notes on the code as written

Two things the code does: `encode` is not a single pass, and not every
string survives the round trip. The model follows the code.

**`encode` is a replace loop, not a single pass.** The loop equals a single
left-to-right escaping pass when the input has no `%`
(`PercentCodec.SinglePassWithoutPercent`). With a `%` present, later
replaces of `%` escape the `%` of escapes written earlier: `encode("% %")`
is `%2525%2520%2525`, where the single pass gives `%25%20%25`
(`CodecProperties.PercentEscapedAgain`, `CodecProperties.PercentEscapedOnce`).

**`decode(encode(s)) == s` holds under conditions.** It is proved
(`CodecProperties.RoundTrip`) for a string that:

- has no `%`;
- is made of safe text, then a block of escaped units that are not
  surrogates, then safe text.

It fails, for example, when:

- `%` is mixed with other escaped units: the replace of `%` escapes again
  the `%` of an escape written earlier, so `encode(" %")` is `%2520%25`,
  and decoding that gives `%20%` (`CodecProperties.PercentAfterEscape`;
  `encode("% %")` is `%2525%2520%2525`, `CodecProperties.PercentEscapedAgain`);
- `decode` replaces an earlier run across the whole string, and so also
  rewrites the same text at the head of a later, longer run, which is then
  never found: `encode(" x \"")` is `%20x%20%22`, and decoding that gives
  ` x %22` (`CodecProperties.LaterRunHidden`);
- a lone surrogate is written as `?` by the UTF-8 encoder
  (`Utf8.LoneSurrogateBecomesQuestionMark`).

## Model

| member | source | states |
|---|---|---|
| `JavaStrings.IndexOf` | src/main/java/org/jscookie/Cookies.java:382 | `indexOf('=')` is -1 exactly when there is no `=`, otherwise the first index holding `=` |
| `JavaStrings.SplitPiecesJoin` | src/main/java/org/jscookie/Cookies.java:376 | the pieces of a split before its trailing empty pieces are dropped (`SplitPieces`), joined with the delimiter, give back the header; Java's `split` then drops trailing empty pieces |
| `JavaStrings.SplitOfJoin` | src/main/java/org/jscookie/Cookies.java:376 | `split` gives back the joined pieces when no piece contains the delimiter's first unit and the last piece is not empty |
| `JavaStrings.SplitUnitFirst` | src/main/java/org/jscookie/Cookies.java:379 | the first piece of `split("=")` is the text before the first `=`, or the whole token |
| `Utf8.EncodeUnit` | src/main/java/org/jscookie/Cookies.java:285 | the UTF-8 form of one code unit has 1 to 3 bytes by its range; a lone surrogate becomes `?` |
| `Utf8.DecodeEncodeUnits` | src/main/java/org/jscookie/Cookies.java:283-318 | `new String(getBytes(s), "UTF-8") == s` for a string without surrogates |
| `Utf8.LoneSurrogateBecomesQuestionMark` | src/main/java/org/jscookie/Cookies.java:283-318 | a lone surrogate comes back as `?`, not as itself |
| `PercentCodec.HexDigit` | src/main/java/org/jscookie/Cookies.java:287-295 | a `forDigit` nibble after `toUpperCase` is `0-9` or `A-F`, and so never `%` |
| `PercentCodec.HexValueOfDigit` | src/main/java/org/jscookie/Cookies.java:314 | `parseInt` of a digit the encoder writes is that nibble's value |
| `PercentCodec.EscapeBytesAt` | src/main/java/org/jscookie/Cookies.java:286-292 | byte `k` of the sequence becomes `%`, its high nibble and its low nibble at positions `3k` to `3k+2` |
| `PercentCodec.EscapeBytesAlphabet` | src/main/java/org/jscookie/Cookies.java:286-295 | every unit of an escape sequence is `%` or an uppercase hex digit |
| `PercentCodec.NotInEscape` | src/main/java/org/jscookie/Cookies.java:283-296 | an escapable unit other than `%` never occurs in any escape sequence |
| `PercentCodec.HexSequence` | src/main/java/org/jscookie/Cookies.java:283-295 | the `hexSequence` loop yields `%XX` for each byte, uppercase, high nibble first |
| `PercentCodec.Encode` | src/main/java/org/jscookie/Cookies.java:249-302 | the loop, with its four pass-through tests, the exception set and the whole-string replace per escapable index, computes `Encoded` |
| `PercentCodec.EncodeName` | src/main/java/org/jscookie/Cookies.java:245-247 | `encode(decoded)` is `encode` with no exceptions |
| `PercentCodec.EncodeFromLength` | src/main/java/org/jscookie/Cookies.java:296 | each replace with a non-empty sequence never shortens the string, so the encoding is at least as long as the input |
| `PercentCodec.EncodeFromKeeps` | src/main/java/org/jscookie/Cookies.java:254-296 | a unit that passes through is never removed from the accumulated string |
| `PercentCodec.SinglePassWithoutPercent` | src/main/java/org/jscookie/Cookies.java:249-302 | without `%` in the input, the replace loop equals the single pass that maps each unit to itself or to its escape |
| `PercentCodec.EscapeEachConcat` | src/main/java/org/jscookie/Cookies.java:249-302 | the single-pass reference distributes over concatenation |
| `PercentCodec.PassingUnchanged` | src/main/java/org/jscookie/Cookies.java:254-281 | a string of digits, letters, safe punctuation and exceptions is returned unchanged |
| `PercentCodec.EscapeEachNonePass` | src/main/java/org/jscookie/Cookies.java:283-296 | a block of escapable units becomes the escape of its UTF-8 bytes |
| `PercentCodec.EncodedAlphabet` | src/main/java/org/jscookie/Cookies.java:249-302 | whatever the input, every unit of the result passes through or is `%`: no escapable unit survives |
| `PercentCodec.EncodeValue` | src/main/java/org/jscookie/Cookies.java:326-354 | the loop collects exactly the ignorable units of the value as exceptions and then encodes with them |
| `PercentCodec.EncodedValueIgnorable` | src/main/java/org/jscookie/Cookies.java:326-354 | collecting the exceptions from the value equals encoding with the whole ignorable set |
| `PercentCodec.RunEnd` | src/main/java/org/jscookie/Cookies.java:306-309 | a run of `(%[0-9A-Z]{2})+` is greedy: it ends a multiple of 3 later, where no group starts |
| `PercentCodec.RunEndGroups` | src/main/java/org/jscookie/Cookies.java:306-310 | every third position of a run starts a `%XX` group |
| `PercentCodec.ParseRun` | src/main/java/org/jscookie/Cookies.java:310-315 | the `parseInt(_, 16)` loop over the groups of a run gives their bytes, or the `NumberFormatException` |
| `PercentCodec.Decode` | src/main/java/org/jscookie/Cookies.java:304-324 | the `matcher.find()` loop replaces each run in the accumulated string by its UTF-8 decoding, or raises `NumberFormatException` |
| `CodecProperties.DecodeSkip` | src/main/java/org/jscookie/Cookies.java:306-308 | positions without `%` are skipped by the scan |
| `CodecProperties.DecodeWithoutRuns` | src/main/java/org/jscookie/Cookies.java:304-324 | a string with no `%[0-9A-Z]{2}` group, lowercase hex included, is returned unchanged |
| `CodecProperties.GroupsAligned` | src/main/java/org/jscookie/Cookies.java:306-310 | inside a run, groups start only at every third position |
| `CodecProperties.ParseRunFails` | src/main/java/org/jscookie/Cookies.java:310-315 | parsing a run fails exactly when one of its groups has a digit in `G-Z` |
| `CodecProperties.DecodeFailsExactly` | src/main/java/org/jscookie/Cookies.java:304-324 | `decode` fails exactly when some group has a `G-Z` digit, and then with `NumberFormatException` |
| `CodecProperties.ParseEscapeBytes` | src/main/java/org/jscookie/Cookies.java:283-315 | `parseInt` of the encoder's hex groups gives back the bytes |
| `CodecProperties.DecodeOneRun` | src/main/java/org/jscookie/Cookies.java:304-324 | one run of escaped bytes between `%`-free text decodes to the UTF-8 decoding of those bytes in place |
| `CodecProperties.RoundTrip` | src/main/java/org/jscookie/Cookies.java:249-324 | `decode(encode(s, ex)) == s` for `%`-free safe text around a block of escaped, non-surrogate units |
| `CodecProperties.ValueKeepsIgnorable` | src/main/java/org/jscookie/Cookies.java:326-354 | an ignorable unit of the value, `=` among them, stays in the encoded value |
| `CodecProperties.ValueSinglePass` | src/main/java/org/jscookie/Cookies.java:326-354 | without `%`, `encodeValue` is the single pass that keeps the ignorable units |
| `CodecProperties.ValueRoundTrip` | src/main/java/org/jscookie/Cookies.java:304-354 | `decode(encodeValue(s)) == s` under the round-trip conditions, with the ignorable units as exceptions |
| `CodecProperties.EncodeColonExamples` | src/main/java/org/jscookie/Cookies.java:249-302 | `encode("a:b", {})` is `a%3Ab`; with `:` as an exception it is `a:b` |
| `CodecProperties.PercentAfterEscape` | src/main/java/org/jscookie/Cookies.java:249-324 | `encode(" %")` is `%2520%25` and `decode` of that is `%20%`, so `decode(encode(" %"))` is not ` %` |
| `CodecProperties.LaterRunHidden` | src/main/java/org/jscookie/Cookies.java:304-324 | `encode(" x \"")` is `%20x%20%22`, and `decode` of that is ` x %22`: the global replace of the first run `%20` also rewrites the head of the later run `%20%22`, which is then never replaced |
| `CodecProperties.PercentEscapedAgain` | src/main/java/org/jscookie/Cookies.java:251-296 | `encode("% %", {})` is `%2525%2520%2525`: each later `%` index escapes the escapes written earlier again |
| `CodecProperties.PercentEscapedOnce` | src/main/java/org/jscookie/Cookies.java:249-302 | the single pass gives `%25%20%25` for the same input, so the replace loop differs from it |
| `CodecProperties.DecodeEqualsSignExample` | src/main/java/org/jscookie/Cookies.java:304-324 | `decode("x%3Dy")` is `x=y` |
| `CodecProperties.DecodeLowercaseExample` | src/main/java/org/jscookie/Cookies.java:306 | lowercase hex is not a run: `decode("%3a")` is `%3a` |
| `CodecProperties.DecodeNonHexExample` | src/main/java/org/jscookie/Cookies.java:306-314 | `%G1` matches the pattern but fails `parseInt`: `NumberFormatException` |
| `CookieHeader.DecodedValue` | src/main/java/org/jscookie/Cookies.java:356-372 | the converter's string when it returns one; `decode` when it returns `null`, throws `ConverterException` or is absent |
| `CookieHeader.TokenParts` | src/main/java/org/jscookie/Cookies.java:379-382 | the name is the text before the first `=` and the value the text after it, and name + `=` + value is the token; without `=` the token is both |
| `CookieHeader.TokenNameFails` | src/main/java/org/jscookie/Cookies.java:379 | `split("=")[0]` throws `ArrayIndexOutOfBoundsException` exactly for a non-empty token made only of `=` |
| `CookieHeader.Entries` | src/main/java/org/jscookie/Cookies.java:376-383 | one entry per token, in header order |
| `CookieHeader.GetCookies` | src/main/java/org/jscookie/Cookies.java:374-387 | the loop over the `"; "` tokens computes the map `ParsedHeader` describes, or the first exception |
| `CookieHeader.ParseFromFails` | src/main/java/org/jscookie/Cookies.java:377-385 | parsing succeeds exactly when every token does; otherwise it raises the first token's exception |
| `CookieHeader.ParseFromEntries` | src/main/java/org/jscookie/Cookies.java:377-385 | the map's names are exactly the tokens' names; the last token of a name gives its value |
| `CookieHeader.TokenEntryFallback` | src/main/java/org/jscookie/Cookies.java:359-369 | a converter that never returns a string leaves each token as `decode` alone makes it |
| `CookieHeader.ConverterFallback` | src/main/java/org/jscookie/Cookies.java:356-387 | such a converter parses the whole header as no converter does |
| `CookieHeader.TokenEntryOf` | src/main/java/org/jscookie/Cookies.java:379-384 | a token `name=value` with no `=` in the name gives the decoded name and the decoded value |
| `CookieHeader.OneToken` | src/main/java/org/jscookie/Cookies.java:379-384 | a one-unit name and value without `%` or `=` are their own entry |
| `CookieHeader.TwoCookiesExample` | src/main/java/org/jscookie/Cookies.java:374-387 | `a=1; b=2` gives `{a: "1", b: "2"}` |
| `CookieHeader.EscapedEqualsExample` | src/main/java/org/jscookie/Cookies.java:374-387 | `a=x%3Dy` gives `{a: "x=y"}`: the value is everything after the first `=`, decoded |
| `CookieHeader.OnlyEqualsExample` | src/main/java/org/jscookie/Cookies.java:376-379 | the header `==` throws `ArrayIndexOutOfBoundsException` |
| `CookieAttributes.Override` | src/main/java/org/jscookie/Cookies.java:442-453 | one field after `merge` is the reference's value when it is set, otherwise the old value |
| `CookieAttributes.MergeSetsExactly` | src/main/java/org/jscookie/Cookies.java:441-455 | every field the reference sets takes its value, and every field it leaves `null` is unchanged |
| `CookieAttributes.MergeUnset` | src/main/java/org/jscookie/Cookies.java:441-455 | merging empty attributes changes nothing; merging into empty attributes copies the reference |
| `CookieAttributes.MergeIdempotent` | src/main/java/org/jscookie/Cookies.java:441-455 | merging the same reference twice is merging it once, and merging an object into itself changes nothing |
| `CookieAttributes.MergeAssociative` | src/main/java/org/jscookie/Cookies.java:441-455 | merging `b` then `c` equals merging the merge of `c` into `b` |
| `CookieAttributes.ExtendedConcat` | src/main/java/org/jscookie/Cookies.java:237-243 | `extend` of a concatenation is the merge of the two extensions |
| `CookieAttributes.ExtendedSingle` | src/main/java/org/jscookie/Cookies.java:237-243 | `extend` of one object is a copy of it |
| `CookieAttributes.ResolvedPrecedence` | src/main/java/org/jscookie/Cookies.java:117 | each resolved attribute comes from the call's attributes when set, else from the defaults; the path falls back to `/` |
| `CookieAttributes.ResolvedDefaults` | src/main/java/org/jscookie/Cookies.java:174-183 | resolving the defaults against themselves gives the defaults over the `/` path |
| `CookieAttributes.Attributes.Empty` | src/main/java/org/jscookie/Cookies.java:395-399 | `Attributes.empty()` has every field `null` |
| `CookieAttributes.Attributes.SetExpires` | src/main/java/org/jscookie/Cookies.java:406-409 | sets `expires`, leaves the other fields alone, and returns this object |
| `CookieAttributes.Attributes.SetPath` | src/main/java/org/jscookie/Cookies.java:416-419 | sets `path`, leaves the other fields alone, and returns this object |
| `CookieAttributes.Attributes.SetDomain` | src/main/java/org/jscookie/Cookies.java:426-429 | sets `domain`, leaves the other fields alone, and returns this object |
| `CookieAttributes.Attributes.SetSecure` | src/main/java/org/jscookie/Cookies.java:436-439 | sets `secure`, leaves the other fields alone, and returns this object |
| `CookieAttributes.Attributes.Merge` | src/main/java/org/jscookie/Cookies.java:441-455 | the new fields are the old ones merged with the reference's old ones, even when the reference is this object |
| `CookieAttributes.ValuesOf` | src/main/java/org/jscookie/Cookies.java:237-239 | the attribute values of each argument of `extend`, in order |
| `CookieStore.HeaderParts` | src/main/java/org/jscookie/Cookies.java:112-137 | the header starts with the `name=value` pair |
| `CookieStore.HeaderJoinsParts` | src/main/java/org/jscookie/Cookies.java:112-137 | the header is the pair and the written attributes joined by `"; "` |
| `CookieStore.EncodedPairAlphabet` | src/main/java/org/jscookie/Cookies.java:109-115 | the encoded name holds no `;` and no `=`, and the encoded value holds no `;` |
| `CookieStore.HeaderSplitsIntoParts` | src/main/java/org/jscookie/Cookies.java:109-137 | splitting the written header on `"; "` gives back the pair and each written attribute, when path and domain hold no `;` |
| `CookieStore.ExpiresNotWritten` | src/main/java/org/jscookie/Cookies.java:119-122 | the expiration has no effect on the header |
| `CookieStore.RemoveMatchesSet` | src/main/java/org/jscookie/Cookies.java:206-217 | `remove(name, attributes)` writes the header `set(name, "", attributes)` writes |
| `CookieStore.SetThenGet` | src/main/java/org/jscookie/Cookies.java:109-115 | the pair `set` writes parses back to `{name: value}` when name and value survive the codec round trip |
| `CookieStore.Response.constructor` | src/main/java/org/jscookie/Cookies.java:139-143 | a response with the given committed flag and headers |
| `CookieStore.Response.AddHeader` | src/main/java/org/jscookie/Cookies.java:143 | appends one header and leaves the committed flag |
| `CookieStore.Cookies.constructor` | src/main/java/org/jscookie/Cookies.java:33-37 | keeps request, response and converter; the defaults start empty |
| `CookieStore.Cookies.InitFromServlet` | src/main/java/org/jscookie/Cookies.java:39-41 | a new store without a converter and with empty defaults |
| `CookieStore.Cookies.WithConverter` | src/main/java/org/jscookie/Cookies.java:233-235 | a new store on the same request and response with the given converter; its defaults are empty again |
| `CookieStore.Cookies.Get` | src/main/java/org/jscookie/Cookies.java:44-63 | a null or empty name throws; otherwise the value of that name in the parsed header, `null` without a header or without the name |
| `CookieStore.Cookies.GetAll` | src/main/java/org/jscookie/Cookies.java:85-95 | the empty map without a header, otherwise the parsed header |
| `CookieStore.Cookies.Extend` | src/main/java/org/jscookie/Cookies.java:237-243 | a fresh object holding the left-to-right merge of the arguments |
| `CookieStore.Cookies.BuildHeader` | src/main/java/org/jscookie/Cookies.java:112-137 | the `StringBuilder` holds the pair, then `; Path=` when the path is set and non-empty, `; Domain=` when set, and `; Secure` when TRUE |
| `CookieStore.Cookies.Resolve` | src/main/java/org/jscookie/Cookies.java:117 | a fresh object holding path `/` overridden by the defaults, then by the call's attributes |
| `CookieStore.Cookies.SetCookie` | src/main/java/org/jscookie/Cookies.java:109-137 | the header text is the encoded name, `=`, the encoded value and the serialized resolved attributes |
| `CookieStore.Cookies.Set` | src/main/java/org/jscookie/Cookies.java:98-144 | null/empty checks throw and change nothing; otherwise one `Set-Cookie` header with the resolved attributes is added, but only to an uncommitted response |
| `CookieStore.Cookies.SetWithDefaults` | src/main/java/org/jscookie/Cookies.java:174-183 | `set(name, value, defaults)` after its own argument checks |
| `CookieStore.Cookies.Remove` | src/main/java/org/jscookie/Cookies.java:206-217 | null/empty checks throw; otherwise the header of `set(name, "", attributes)` is added to an uncommitted response |
| `CookieStore.Cookies.RemoveName` | src/main/java/org/jscookie/Cookies.java:219-225 | `remove(name, Attributes.empty())` after its own name check |

## Left out

- The servlet request and response: the `Cookie` header is a constructor
  argument, and the response is an object that records the headers it is
  given. `getHeader`, `isCommitted` and `addHeader` are not modelled further.
- The Jackson overloads `get(name, Class)`, `get(name, TypeReference)`,
  `set(name, List, ...)` and `set(name, CookieValue, ...)`: they call an
  external JSON library, and JSON is not part of this model.
- The `int` and `boolean` overloads of `set` only call `String.valueOf`
  first. Number and boolean formatting is not part of this model.
- `ResourceBundle` messages: the model keeps the exception, not its message.
- `synchronized` on `get` and `set`: the model has no concurrency.
- The `UnsupportedEncodingException` branches with `printStackTrace`: UTF-8
  is always supported, so these branches cannot be taken. The
  `e.printStackTrace()` in the `ConverterException` branch is left out as
  well; the fallback to `decodeValue` there is modelled. Logging is output.
- `Utf8.Decode`: malformed UTF-8 gives U+FFFD for each bad byte. Java's
  decoder can replace a longer malformed prefix by one U+FFFD. The encoder
  never writes malformed bytes, and no proved property depends on the
  difference.
- `PercentCodec.IsDigit`: `Character.isDigit` on a `char` is the table of
  decimal-digit blocks of the Basic Multilingual Plane from Java 9 on
  (Unicode 8.0 and later; Java 8's Unicode 6.2 table lacks U+0DE6-0DEF and
  U+A9F0-A9F9). The proofs rely only on the ASCII digits being digits and
  `%` not being one.
- `JavaStrings.Replace`: the model is of Java 9 and later, where
  `String.replace` compares `char` by `char`. Java 8's `replace` goes
  through a literal `Pattern`, which never matches a lone surrogate against
  half of a surrogate pair, so there `encode` leaves a pair such as U+1F600
  unchanged where the model gives `%3F%3F`. Java 8 is not modelled.
- `PercentCodec.HexDigit`: `Character.forDigit` gives lowercase hex, which
  `toUpperCase` then raises. The model writes uppercase directly. The result
  is the same, because `toUpperCase` changes nothing else in a sequence of
  `%` and hex digits.
- `PercentCodec.ParseRun`: `split("%")` of a run is modelled by reading the
  two-digit groups directly. A run always starts with `%`, so the split has
  one empty first piece and then the groups.
- The `defaults()` accessor is the `defaults` field of `Cookies`, which the
  caller can mutate through the `Attributes` setters as in Java.
- `CookieHeader.DecodedValue`: the converter is a total function that returns
  a string, `null` or `ConverterException`. Other runtime exceptions from a
  converter are not modelled.
- `CookieStore.Cookies.Get`: `HashMap.keySet()` iteration order is not
  modelled. The loop picks any remaining key. The result does not depend on
  the order, because the keys are distinct.
- `CookieAttributes.Expiration`: how `Expiration.days` counts time is not
  modelled. `set` reads the expiration but never writes it (the `TODO` at
  lines 119-122), so the header does not depend on it.
- `CodecProperties.RoundTrip` is weaker than "for every string". It holds
  only for `%`-free safe text around one block of escaped non-surrogate
  units, because the code as written does not invert in general (see the
  notes above).
