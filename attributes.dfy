/** `Cookies.Attributes`: four optional cookie attributes, each `null` while
    unset, with fluent setters that change the object and `merge`, which
    copies the attributes another object has set. */
module CookieAttributes {
  import opened Base

  /** An `Expiration`. How it counts time is not part of this model; `remove`
      uses one that lies a day in the past. */
  datatype Expiration = Days(days: int)

  /** The fields of an `Attributes` object at one moment. */
  datatype AttributeValues = AttributeValues(
    expires: Option<Expiration>,
    path: Option<Str>,
    domain: Option<Str>,
    secure: Option<bool>)

  /** `Attributes.empty()`: nothing set. */
  const Unset: AttributeValues := AttributeValues(None, None, None, None)

  /** One field after `merge`: the reference's value when it has one. */
  function Override<T>(field: Option<T>, reference: Option<T>): (r: Option<T>)
    ensures r == reference || (reference.None? && r == field)
    ensures r.Some? <==> field.Some? || reference.Some?
  {
    if reference.Some? then reference else field
  }

  /** `current.merge(reference)`. */
  function Merged(current: AttributeValues, reference: AttributeValues): AttributeValues {
    AttributeValues(
      Override(current.expires, reference.expires),
      Override(current.path, reference.path),
      Override(current.domain, reference.domain),
      Override(current.secure, reference.secure))
  }

  /** `merge` changes a field only to the reference's non-null value, and
      every field the reference has set ends up with that value. */
  lemma MergeSetsExactly(current: AttributeValues, reference: AttributeValues)
    ensures reference.expires.Some? ==> Merged(current, reference).expires == reference.expires
    ensures reference.path.Some? ==> Merged(current, reference).path == reference.path
    ensures reference.domain.Some? ==> Merged(current, reference).domain == reference.domain
    ensures reference.secure.Some? ==> Merged(current, reference).secure == reference.secure
    ensures reference.expires.None? ==> Merged(current, reference).expires == current.expires
    ensures reference.path.None? ==> Merged(current, reference).path == current.path
    ensures reference.domain.None? ==> Merged(current, reference).domain == current.domain
    ensures reference.secure.None? ==> Merged(current, reference).secure == current.secure
  {
  }

  /** Merging an empty record changes nothing, and merging into an empty
      record copies the reference. */
  lemma MergeUnset(a: AttributeValues)
    ensures Merged(a, Unset) == a && Merged(Unset, a) == a
  {
  }

  /** Merging the same record twice is merging it once, and merging a
      record into itself changes nothing. */
  lemma MergeIdempotent(a: AttributeValues, b: AttributeValues)
    ensures Merged(Merged(a, b), b) == Merged(a, b)
    ensures Merged(a, a) == a
  {
  }

  /** Merging `b` and then `c` is merging the result of merging `c` into `b`. */
  lemma MergeAssociative(a: AttributeValues, b: AttributeValues, c: AttributeValues)
    ensures Merged(Merged(a, b), c) == Merged(a, Merged(b, c))
  {
  }

  /** `extend(mergeables...)`: an empty record merged with each in turn. */
  function Extended(mergeables: seq<AttributeValues>): AttributeValues {
    if mergeables == [] then Unset
    else Merged(Extended(mergeables[..|mergeables| - 1]), mergeables[|mergeables| - 1])
  }

  /** Extending by a concatenation is merging the two extensions: the fold
      can be cut anywhere. */
  lemma {:induction false} ExtendedConcat(xs: seq<AttributeValues>, ys: seq<AttributeValues>)
    ensures Extended(xs + ys) == Merged(Extended(xs), Extended(ys))
    decreases |ys|
  {
    if ys == [] {
      assert xs + ys == xs;
      MergeUnset(Extended(xs));
    } else {
      var init := ys[..|ys| - 1];
      var last := ys[|ys| - 1];
      assert (xs + ys)[..|xs + ys| - 1] == xs + init;
      ExtendedConcat(xs, init);
      MergeAssociative(Extended(xs), Extended(init), last);
    }
  }

  /** `extend` of one record is a copy of that record. */
  lemma ExtendedSingle(a: AttributeValues)
    ensures Extended([a]) == a
  {
    assert [a][..0] == [];
    MergeUnset(a);
  }

  /** The record with only `path` set, as `Attributes.empty().path(p)`. */
  function PathOnly(p: Str): AttributeValues {
    Unset.(path := Some(p))
  }

  /** The record with only `expires` set. */
  function ExpiresOnly(e: Expiration): AttributeValues {
    Unset.(expires := Some(e))
  }

  /** `extend(Attributes.empty().path("/"), defaults, attributes)`, the
      attributes `set` writes. */
  function Resolved(defaults: AttributeValues, attributes: AttributeValues): AttributeValues {
    Extended([PathOnly(['/' as int]), defaults, attributes])
  }

  /** Each attribute comes from `attributes` when it sets it, otherwise from
      `defaults`; the path falls back to `/`, the others to unset. */
  lemma ResolvedPrecedence(defaults: AttributeValues, attributes: AttributeValues)
    ensures Resolved(defaults, attributes).path ==
      if attributes.path.Some? then attributes.path
      else if defaults.path.Some? then defaults.path
      else Some(['/' as int])
    ensures Resolved(defaults, attributes).domain ==
      if attributes.domain.Some? then attributes.domain else defaults.domain
    ensures Resolved(defaults, attributes).secure ==
      if attributes.secure.Some? then attributes.secure else defaults.secure
    ensures Resolved(defaults, attributes).expires ==
      if attributes.expires.Some? then attributes.expires else defaults.expires
  {
    var base := PathOnly(['/' as int]);
    var xs := [base, defaults, attributes];
    assert xs[..2] == [base, defaults];
    assert xs[..2][..1] == [base];
    ExtendedSingle(base);
    assert Extended(xs[..2]) == Merged(base, defaults);
    assert Extended(xs) == Merged(Merged(base, defaults), attributes);
  }

  /** Resolving the defaults against themselves, as `set(name, value)`
      does, gives the defaults over the `/` path. */
  lemma ResolvedDefaults(defaults: AttributeValues)
    ensures Resolved(defaults, defaults) == Merged(PathOnly(['/' as int]), defaults)
  {
    ResolvedPrecedence(defaults, defaults);
  }

  /** An `Attributes` object. */
  class Attributes {
    var expires: Option<Expiration>
    var path: Option<Str>
    var domain: Option<Str>
    var secure: Option<bool>

    /** The four fields as a value. */
    function Values(): AttributeValues
      reads this
    {
      AttributeValues(expires, path, domain, secure)
    }

    /** `Attributes.empty()`. */
    constructor Empty()
      ensures Values() == Unset
    {
      expires, path, domain, secure := None, None, None, None;
    }

    /** `expires(e)`: sets one field and returns this object. */
    method SetExpires(e: Option<Expiration>) returns (self: Attributes)
      modifies this
      ensures self == this && Values() == old(Values()).(expires := e)
    {
      expires := e;
      return this;
    }

    /** `path(p)`. */
    method SetPath(p: Option<Str>) returns (self: Attributes)
      modifies this
      ensures self == this && Values() == old(Values()).(path := p)
    {
      path := p;
      return this;
    }

    /** `domain(d)`. */
    method SetDomain(d: Option<Str>) returns (self: Attributes)
      modifies this
      ensures self == this && Values() == old(Values()).(domain := d)
    {
      domain := d;
      return this;
    }

    /** `secure(s)`. */
    method SetSecure(s: Option<bool>) returns (self: Attributes)
      modifies this
      ensures self == this && Values() == old(Values()).(secure := s)
    {
      secure := s;
      return this;
    }

    /** `merge(reference)`: copies each field the reference has set. The
        reference may be this object itself. */
    method Merge(reference: Attributes) returns (self: Attributes)
      modifies this
      ensures self == this && Values() == Merged(old(Values()), old(reference.Values()))
    {
      var r := reference.Values();
      if r.path.Some? {
        path := r.path;
      }
      if r.domain.Some? {
        domain := r.domain;
      }
      if r.expires.Some? {
        expires := r.expires;
      }
      if r.secure.Some? {
        secure := r.secure;
      }
      return this;
    }
  }

  /** The values of a sequence of objects. */
  function ValuesOf(xs: seq<Attributes>): (r: seq<AttributeValues>)
    reads set x | x in xs
    ensures |r| == |xs|
    ensures forall i | 0 <= i < |xs| :: r[i] == xs[i].Values()
  {
    if xs == [] then [] else ValuesOf(xs[..|xs| - 1]) + [xs[|xs| - 1].Values()]
  }
}
