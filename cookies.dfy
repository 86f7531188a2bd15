/** The `Cookies` store: reads cookies from the request's `Cookie` header
    and writes them as `Set-Cookie` headers on the response, with default
    attributes and an optional converter. */
module CookieStore {
  import opened Base
  import opened JavaStrings
  import opened PercentCodec
  import opened CookieHeader
  import opened CookieAttributes

  /** The response header name `Set-Cookie`. */
  const SET_COOKIE: Str := Lit("Set-Cookie")

  const PATH_ATTRIBUTE: Str := Lit("Path=")
  const DOMAIN_ATTRIBUTE: Str := Lit("Domain=")
  const SECURE_ATTRIBUTE: Str := Lit("Secure")

  // ---------------------------------------------------------------------
  // The Set-Cookie header
  // ---------------------------------------------------------------------

  /** `"; Path=" + path`, written when the path is set and not empty. */
  function PathPart(attributes: AttributeValues): Str {
    if attributes.path.Some? && attributes.path.value != [] then SEPARATOR + PATH_ATTRIBUTE + attributes.path.value else []
  }

  /** `"; Domain=" + domain`, written when the domain is set. */
  function DomainPart(attributes: AttributeValues): Str {
    if attributes.domain.Some? then SEPARATOR + DOMAIN_ATTRIBUTE + attributes.domain.value else []
  }

  /** `"; Secure"`, written when `secure` is TRUE. */
  function SecurePart(attributes: AttributeValues): Str {
    if attributes.secure == Some(true) then SEPARATOR + SECURE_ATTRIBUTE else []
  }

  /** The `Set-Cookie` value the `StringBuilder` of `set` holds. The
      expiration is never written. */
  function SetCookieHeader(encodedName: Str, encodedValue: Str, attributes: AttributeValues): Str {
    encodedName + [EQUALS] + encodedValue + PathPart(attributes) + DomainPart(attributes) + SecurePart(attributes)
  }

  /** The `name=value` pair and the attributes `set` writes, in order:
      `Path` when it is set and not empty, `Domain` when it is set, and
      `Secure` when it is TRUE. */
  function HeaderParts(encodedName: Str, encodedValue: Str, attributes: AttributeValues): (parts: seq<Str>)
    ensures |parts| > 0 && parts[0] == encodedName + [EQUALS] + encodedValue
  {
    [encodedName + [EQUALS] + encodedValue]
    + (if attributes.path.Some? && attributes.path.value != [] then [PATH_ATTRIBUTE + attributes.path.value] else [])
    + (if attributes.domain.Some? then [DOMAIN_ATTRIBUTE + attributes.domain.value] else [])
    + (if attributes.secure == Some(true) then [SECURE_ATTRIBUTE] else [])
  }

  /** The header is its parts joined by `"; "`. */
  lemma HeaderJoinsParts(encodedName: Str, encodedValue: Str, attributes: AttributeValues)
    ensures SetCookieHeader(encodedName, encodedValue, attributes) == Join(HeaderParts(encodedName, encodedValue, attributes), SEPARATOR)
  {
    var pair := encodedName + [EQUALS] + encodedValue;
    var p := if attributes.path.Some? && attributes.path.value != [] then [PATH_ATTRIBUTE + attributes.path.value] else [];
    var d := if attributes.domain.Some? then [DOMAIN_ATTRIBUTE + attributes.domain.value] else [];
    var s := if attributes.secure == Some(true) then [SECURE_ATTRIBUTE] else [];
    JoinAppend([pair], p);
    assert Join([pair] + p, SEPARATOR) == pair + PathPart(attributes);
    JoinAppend([pair] + p, d);
    assert Join([pair] + p + d, SEPARATOR) == pair + PathPart(attributes) + DomainPart(attributes);
    JoinAppend([pair] + p + d, s);
  }

  /** Joining one more optional piece appends the separator and the piece. */
  lemma {:induction false} JoinAppend(pieces: seq<Str>, more: seq<Str>)
    requires |pieces| > 0 && |more| <= 1
    ensures Join(pieces + more, SEPARATOR) == Join(pieces, SEPARATOR) + (if more == [] then [] else SEPARATOR + more[0])
    decreases |pieces|
  {
    if more == [] {
      assert pieces + more == pieces;
    } else if |pieces| == 1 {
      assert (pieces + more)[1..] == more;
    } else {
      assert (pieces + more)[1..] == pieces[1..] + more;
      JoinAppend(pieces[1..], more);
    }
  }

  /** Splitting the header on `"; "` gives back the pair and the attributes,
      when neither the path nor the domain contains `;`. */
  lemma HeaderSplitsIntoParts(name: Str, value: Str, attributes: AttributeValues)
    requires attributes.path.Some? ==> SEPARATOR[0] !in attributes.path.value
    requires attributes.domain.Some? ==> SEPARATOR[0] !in attributes.domain.value
    ensures SplitPieces(SetCookieHeader(Encoded(name, {}), EncodedValue(value), attributes), SEPARATOR)
      == HeaderParts(Encoded(name, {}), EncodedValue(value), attributes)
  {
    var encodedName, encodedValue := Encoded(name, {}), EncodedValue(value);
    EncodedPairAlphabet(name, value);
    var parts := HeaderParts(encodedName, encodedValue, attributes);
    assert PATH_ATTRIBUTE == [80, 97, 116, 104, 61];
    assert DOMAIN_ATTRIBUTE == [68, 111, 109, 97, 105, 110, 61];
    assert SECURE_ATTRIBUTE == [83, 101, 99, 117, 114, 101];
    forall i | 0 <= i < |parts| ensures SEPARATOR[0] !in parts[i] {
    }
    HeaderJoinsParts(encodedName, encodedValue, attributes);
    SplitPiecesOfJoin(parts, SEPARATOR);
  }

  /** `encode` keeps `;` and `=` out of a name, and `encodeValue` keeps `;`
      out of a value: neither can end the pair early. */
  lemma EncodedPairAlphabet(name: Str, value: Str)
    ensures SEPARATOR[0] !in Encoded(name, {}) && EQUALS !in Encoded(name, {})
    ensures SEPARATOR[0] !in EncodedValue(value)
  {
    EncodedAlphabet(name, {});
    EncodedValueIgnorable(value);
    EncodedAlphabet(value, Ignorable);
    assert SEPARATOR[0] !in Ignorable;
  }

  /** The expiration does not reach the header. */
  lemma ExpiresNotWritten(encodedName: Str, encodedValue: Str, attributes: AttributeValues, e: Option<Expiration>)
    ensures SetCookieHeader(encodedName, encodedValue, attributes.(expires := e))
      == SetCookieHeader(encodedName, encodedValue, attributes)
  {
  }

  /** The header `set(name, value, attributes)` writes with these defaults. */
  function Written(name: Str, value: Str, defaults: AttributeValues, attributes: AttributeValues): Str {
    SetCookieHeader(Encoded(name, {}), EncodedValue(value), Resolved(defaults, attributes))
  }

  /** `remove(name, attributes)` writes what `set(name, "", attributes)`
      writes: the expiration it adds is not serialized. */
  lemma RemoveMatchesSet(name: Str, defaults: AttributeValues, attributes: AttributeValues)
    ensures Written(name, [], defaults, Extended([attributes, ExpiresOnly(Days(-1))]))
      == Written(name, [], defaults, attributes)
  {
    var expiring := Extended([attributes, ExpiresOnly(Days(-1))]);
    assert [attributes, ExpiresOnly(Days(-1))][..1] == [attributes];
    ExtendedSingle(attributes);
    assert expiring == attributes.(expires := Some(Days(-1)));
    ResolvedPrecedence(defaults, expiring);
    ResolvedPrecedence(defaults, attributes);
    assert Resolved(defaults, expiring) == Resolved(defaults, attributes).(expires := Some(Days(-1)));
  }

  /** What a browser sends back for a cookie `set` wrote is the pair at the
      head of the header. When the name and value survive `decode(encode(.))`
      (see the round-trip lemma of the codec), reading that pair back gives
      the name and value that were set. */
  lemma SetThenGet(name: Str, value: Str)
    requires name != []
    requires Decoded(Encoded(name, {})) == Success(name)
    requires Decoded(EncodedValue(value)) == Success(value)
    ensures ParsedHeader(Encoded(name, {}) + [EQUALS] + EncodedValue(value), None) == Success(map[name := value])
  {
    var encodedName, encodedValue := Encoded(name, {}), EncodedValue(value);
    var pair := encodedName + [EQUALS] + encodedValue;
    EncodeFromLength(name, {}, 0, name);
    EncodedPairAlphabet(name, value);
    assert SEPARATOR[0] !in pair;
    SplitPiecesAbsent(pair, SEPARATOR);
    TokenEntryOf(encodedName, encodedValue, None);
    var entries := Entries([pair], None);
    assert entries == [Success((name, value))];
    assert ParseFrom(entries, 0, map[]) == ParseFrom(entries, 1, map[name := value]);
  }

  // ---------------------------------------------------------------------
  // The servlet response and the store
  // ---------------------------------------------------------------------

  /** The servlet response: whether it is committed, and the headers added
      to it so far. */
  class Response {
    var committed: bool
    var headers: seq<(Str, Str)>

    constructor (committed: bool, headers: seq<(Str, Str)>)
      ensures this.committed == committed && this.headers == headers
    {
      this.committed := committed;
      this.headers := headers;
    }

    /** `addHeader(name, value)`. */
    method AddHeader(name: Str, value: Str)
      modifies this
      ensures headers == old(headers) + [(name, value)] && committed == old(committed)
    {
      headers := headers + [(name, value)];
    }
  }

  /** The value `get(name)` returns for the request's cookie header. */
  function CookieValue(name: Str, cookieHeader: Option<Str>, converter: Option<Converter>): Result<Option<Str>> {
    if cookieHeader.None? then Success(None)
    else
      match ParsedHeader(cookieHeader.value, converter)
      case Failure(e) => Failure(e)
      case Success(cookies) => Success(if name in cookies then Some(cookies[name]) else None)
  }

  /** A name argument `get`, `set` and `remove` accept: not null, not empty. */
  predicate ValidName(name: Option<Str>) {
    name.Some? && name.value != []
  }

  class Cookies {
    /** `request.getHeader("cookie")`. */
    const cookieHeader: Option<Str>
    const response: Response
    const defaults: Attributes
    const converter: Option<Converter>

    /** The private constructor; `defaults` starts empty. */
    constructor (cookieHeader: Option<Str>, response: Response, converter: Option<Converter>)
      ensures this.cookieHeader == cookieHeader && this.response == response && this.converter == converter
      ensures fresh(defaults) && defaults.Values() == Unset
    {
      this.cookieHeader := cookieHeader;
      this.response := response;
      this.converter := converter;
      defaults := new Attributes.Empty();
    }

    /** `initFromServlet(request, response)`: no converter. */
    static method InitFromServlet(cookieHeader: Option<Str>, response: Response) returns (cookies: Cookies)
      ensures fresh(cookies) && fresh(cookies.defaults) && cookies.defaults.Values() == Unset
      ensures cookies.cookieHeader == cookieHeader && cookies.response == response && cookies.converter.None?
    {
      cookies := new Cookies(cookieHeader, response, None);
    }

    /** `withConverter(converter)`: a new store on the same request and
        response, whose defaults are empty again. */
    method WithConverter(converter: Option<Converter>) returns (cookies: Cookies)
      ensures fresh(cookies) && fresh(cookies.defaults) && cookies.defaults.Values() == Unset
      ensures cookies.cookieHeader == cookieHeader && cookies.response == response && cookies.converter == converter
    {
      cookies := new Cookies(cookieHeader, response, converter);
    }

    /** `get(name)`: the value of the cookie of that name, by a search
        through the names of the parsed header. */
    method Get(name: Option<Str>) returns (r: Result<Option<Str>>)
      ensures !ValidName(name) ==> r == Failure(IllegalArgument)
      ensures ValidName(name) ==> r == CookieValue(name.value, cookieHeader, converter)
    {
      if name.None? || name.value == [] {
        return Failure(IllegalArgument);
      }
      if cookieHeader.None? {
        return Success(None);
      }
      var cookies := GetCookies(cookieHeader.value, converter);
      if cookies.Failure? {
        return Failure(cookies.error);
      }
      var names := cookies.value.Keys;
      while names != {}
        invariant names <= cookies.value.Keys
        invariant name.value in cookies.value ==> name.value in names
        decreases names
      {
        var decodedName :| decodedName in names;
        if name.value == decodedName {
          return Success(Some(cookies.value[decodedName]));
        }
        names := names - {decodedName};
      }
      return Success(None);
    }

    /** `get()`: every cookie of the request. */
    method GetAll() returns (r: Result<map<Str, Str>>)
      ensures cookieHeader.None? ==> r == Success(map[])
      ensures cookieHeader.Some? ==> r == ParsedHeader(cookieHeader.value, converter)
    {
      var result: map<Str, Str> := map[];
      if cookieHeader.None? {
        return Success(result);
      }
      r := GetCookies(cookieHeader.value, converter);
    }

    /** `extend(mergeables...)`: a new object, merged with each argument in
        turn. */
    static method Extend(mergeables: seq<Attributes>) returns (result: Attributes)
      ensures fresh(result) && result.Values() == Extended(ValuesOf(mergeables))
    {
      ghost var values := ValuesOf(mergeables);
      result := new Attributes.Empty();
      for i := 0 to |mergeables|
        invariant fresh(result)
        invariant forall j | 0 <= j < |mergeables| :: mergeables[j].Values() == values[j]
        invariant result.Values() == Extended(values[..i])
      {
        var _ := result.Merge(mergeables[i]);
        assert values[..i + 1][..i] == values[..i];
      }
      assert values[..|mergeables|] == values;
      assert ValuesOf(mergeables) == values;
    }

    /** The `StringBuilder` of `set`: the pair, then each attribute that is
        written. */
    static method BuildHeader(encodedName: Str, encodedValue: Str, attributes: Attributes) returns (header: Str)
      ensures header == SetCookieHeader(encodedName, encodedValue, attributes.Values())
    {
      header := encodedName;
      header := header + [EQUALS];
      header := header + encodedValue;
      // The expiration is read but not written.
      var path := attributes.path;
      if path.Some? && path.value != [] {
        header := header + (SEPARATOR + PATH_ATTRIBUTE + path.value);
      }
      assert header == encodedName + [EQUALS] + encodedValue + PathPart(attributes.Values());
      var domain := attributes.domain;
      if domain.Some? {
        header := header + (SEPARATOR + DOMAIN_ATTRIBUTE + domain.value);
      }
      assert header == encodedName + [EQUALS] + encodedValue + PathPart(attributes.Values()) + DomainPart(attributes.Values());
      var secure := attributes.secure;
      if secure == Some(true) {
        header := header + (SEPARATOR + SECURE_ATTRIBUTE);
      }
    }

    /** The header `set(name, value, attributes)` builds: the encoded pair
        and the attributes resolved against `/` and the defaults. */
    method SetCookie(name: Str, value: Str, attributes: Attributes) returns (header: Str)
      ensures header == Written(name, value, defaults.Values(), attributes.Values())
    {
      var encodedName := EncodeName(name);
      var encodedValue := EncodeValue(value);
      var resolved := Resolve(attributes);
      header := BuildHeader(encodedName, encodedValue, resolved);
    }

    /** The attributes a written cookie carries: path `/`, then the
        defaults, then the call's own attributes, later ones winning. */
    method Resolve(attributes: Attributes) returns (resolved: Attributes)
      ensures fresh(resolved) && resolved.Values() == Resolved(defaults.Values(), attributes.Values())
    {
      var root := new Attributes.Empty();
      root := root.SetPath(Some(['/' as int]));
      resolved := Extend([root, defaults, attributes]);
      assert ValuesOf([root, defaults, attributes]) == [PathOnly(['/' as int]), defaults.Values(), attributes.Values()];
    }

    /** `set(name, value, attributes)`: checks its arguments, then adds the
        header to a response that is not yet committed. */
    method Set(name: Option<Str>, value: Option<Str>, attributes: Option<Attributes>) returns (r: Outcome)
      modifies response
      ensures response.committed == old(response.committed)
      ensures !ValidName(name) || value.None? || attributes.None? ==>
        r == Fail(IllegalArgument) && response.headers == old(response.headers)
      ensures ValidName(name) && value.Some? && attributes.Some? ==>
        r == Pass &&
        response.headers == old(response.headers) +
          (if old(response.committed) then []
           else [(SET_COOKIE, Written(name.value, value.value, defaults.Values(), attributes.value.Values()))])
    {
      if name.None? || name.value == [] {
        return Fail(IllegalArgument);
      }
      if value.None? {
        return Fail(IllegalArgument);
      }
      if attributes.None? {
        return Fail(IllegalArgument);
      }

      var header := SetCookie(name.value, value.value, attributes.value);
      if response.committed {
        return Pass;
      }
      response.AddHeader(SET_COOKIE, header);
      return Pass;
    }

    /** `set(name, value)`: `set` with the defaults as the attributes. */
    method SetWithDefaults(name: Option<Str>, value: Option<Str>) returns (r: Outcome)
      modifies response
      ensures response.committed == old(response.committed)
      ensures !ValidName(name) || value.None? ==>
        r == Fail(IllegalArgument) && response.headers == old(response.headers)
      ensures ValidName(name) && value.Some? ==>
        r == Pass &&
        response.headers == old(response.headers) +
          (if old(response.committed) then []
           else [(SET_COOKIE, Written(name.value, value.value, defaults.Values(), defaults.Values()))])
    {
      if name.None? || name.value == [] {
        return Fail(IllegalArgument);
      }
      if value.None? {
        return Fail(IllegalArgument);
      }
      r := Set(name, value, Some(defaults));
    }

    /** `remove(name, attributes)`: `set` of an empty value with an
        expiration in the past, which writes what `set(name, "", attributes)`
        writes. */
    method Remove(name: Option<Str>, attributes: Option<Attributes>) returns (r: Outcome)
      modifies response
      ensures response.committed == old(response.committed)
      ensures !ValidName(name) || attributes.None? ==>
        r == Fail(IllegalArgument) && response.headers == old(response.headers)
      ensures ValidName(name) && attributes.Some? ==>
        r == Pass &&
        response.headers == old(response.headers) +
          (if old(response.committed) then []
           else [(SET_COOKIE, Written(name.value, [], defaults.Values(), attributes.value.Values()))])
    {
      if name.None? || name.value == [] {
        return Fail(IllegalArgument);
      }
      if attributes.None? {
        return Fail(IllegalArgument);
      }
      var expiring := new Attributes.Empty();
      expiring := expiring.SetExpires(Some(Days(-1)));
      var merged := Extend([attributes.value, expiring]);
      assert ValuesOf([attributes.value, expiring]) == [attributes.value.Values(), ExpiresOnly(Days(-1))];
      RemoveMatchesSet(name.value, defaults.Values(), attributes.value.Values());
      r := Set(name, Some([]), Some(merged));
    }

    /** `remove(name)`: `remove` with empty attributes. */
    method RemoveName(name: Option<Str>) returns (r: Outcome)
      modifies response
      ensures response.committed == old(response.committed)
      ensures !ValidName(name) ==> r == Fail(IllegalArgument) && response.headers == old(response.headers)
      ensures ValidName(name) ==>
        r == Pass &&
        response.headers == old(response.headers) +
          (if old(response.committed) then []
           else [(SET_COOKIE, Written(name.value, [], defaults.Values(), Unset))])
    {
      if name.None? || name.value == [] {
        return Fail(IllegalArgument);
      }
      var empty := new Attributes.Empty();
      r := Remove(name, Some(empty));
    }
  }
}
