/**
 * The query-string helpers of the request providers (pkg/provider/util.go;
 * domain/redirectdefinition/provider/util.go holds the same three helpers).
 * net/url is not modelled: parsing a URL or a query, encoding values and
 * rendering a request URI are function values of a `Lib` the callers pass in.
 */
module Urls {
  import opened Wrappers

  /** url.Values: every key with its list of values. */
  type Values = map<string, seq<string>>

  /**
   * A parsed URL, as far as the providers look into it: its path, its raw
   * query, and everything else (scheme, host, fragment, ...) as one part.
   */
  datatype Url = Url(other: string, path: string, rawQuery: string)

  /** url.Parse, url.ParseQuery, url.Values.Encode and (*url.URL).RequestURI. */
  datatype Lib = Lib(
    parse: string -> Result<Url, string>,
    parseQuery: string -> Result<Values, string>,
    encode: Values -> string,
    requestURI: Url -> string)

  /** strings.TrimSuffix: drops one occurrence of `suffix` from the end of `s`, if it is there. */
  function TrimSuffix(s: string, suffix: string): (r: string)
    ensures r == s || r + suffix == s
    ensures |suffix| <= |s| && s[|s| - |suffix|..] == suffix ==> r + suffix == s
  {
    if |suffix| <= |s| && s[|s| - |suffix|..] == suffix then s[..|s| - |suffix|] else s
  }

  /** Encoding `v` and parsing the text back gives `v` again. */
  predicate EncodeRoundTrips(lib: Lib, v: Values)
  {
    lib.parseQuery(lib.encode(v)) == Ok(v)
  }

  /** normalizeQueryString: the parsed query, encoded again (keys in order), or the parse error. */
  function NormalizeQueryString(lib: Lib, raw: string): (r: Result<string, string>)
    ensures r.Err? <==> lib.parseQuery(raw).Err?
    ensures r.Err? ==> r.error == lib.parseQuery(raw).error
    ensures r.Ok? ==> lib.parseQuery(raw).Ok? && r.value == lib.encode(lib.parseQuery(raw).value)
  {
    match lib.parseQuery(raw)
    case Err(e) => Err(e)
    case Ok(values) => Ok(lib.encode(values))
  }

  /**
   * Normalising an already normalised query changes nothing, provided the
   * values it encodes parse back unchanged.
   */
  lemma NormalizeIdempotent(lib: Lib, raw: string)
    requires lib.parseQuery(raw).Ok? && EncodeRoundTrips(lib, lib.parseQuery(raw).value)
    ensures NormalizeQueryString(lib, NormalizeQueryString(lib, raw).value) == NormalizeQueryString(lib, raw)
  {
  }

  /**
   * The per-key merge of mergeQueryStrings: every key of `base`, then every
   * key of `override`, is written into a fresh map, so the override's whole
   * value list wins and a key only in `base` keeps its values.
   */
  method MergeValues(base: Values, override: Values) returns (merged: Values)
    ensures merged.Keys == base.Keys + override.Keys
    ensures forall k | k in override :: merged[k] == override[k]
    ensures forall k | k in base && k !in override :: merged[k] == base[k]
    ensures merged == base + override
  {
    merged := map[];
    var remaining := base.Keys;
    while remaining != {}
      invariant remaining <= base.Keys
      invariant merged.Keys == base.Keys - remaining
      invariant forall k | k in merged :: merged[k] == base[k]
      decreases remaining
    {
      var k :| k in remaining;
      merged := merged[k := base[k]];
      remaining := remaining - {k};
    }
    remaining := override.Keys;
    while remaining != {}
      invariant remaining <= override.Keys
      invariant merged.Keys == base.Keys + (override.Keys - remaining)
      invariant forall k | k in merged :: merged[k] == if k in override && k !in remaining then override[k] else base[k]
      decreases remaining
    {
      var k :| k in remaining;
      merged := merged[k := override[k]];
      remaining := remaining - {k};
    }
  }

  /** What mergeQueryStrings returns: a parse error of either input, or the normalised merge. */
  function MergedQuery(lib: Lib, base: string, override: string): (r: Result<string, string>)
    ensures lib.parseQuery(base).Err? ==> r == Err(lib.parseQuery(base).error)
    ensures lib.parseQuery(base).Ok? && lib.parseQuery(override).Err? ==> r == Err(lib.parseQuery(override).error)
  {
    match lib.parseQuery(base)
    case Err(e) => Err(e)
    case Ok(b) =>
      match lib.parseQuery(override)
      case Err(e) => Err(e)
      case Ok(o) => NormalizeQueryString(lib, lib.encode(b + o))
  }

  /**
   * When both queries parse and the merged values encode faithfully, the
   * merge succeeds and its text parses to: the override's values for every
   * key it has, the base's values for every other key of the base, and no
   * other key.
   */
  lemma MergedQueryMeaning(lib: Lib, base: string, override: string)
    requires lib.parseQuery(base).Ok? && lib.parseQuery(override).Ok?
    requires EncodeRoundTrips(lib, lib.parseQuery(base).value + lib.parseQuery(override).value)
    ensures MergedQuery(lib, base, override).Ok?
    ensures var b := lib.parseQuery(base).value;
            var o := lib.parseQuery(override).value;
            var m := lib.parseQuery(MergedQuery(lib, base, override).value);
      m.Ok? && m.value.Keys == b.Keys + o.Keys &&
      (forall k | k in o :: m.value[k] == o[k]) &&
      (forall k | k in b && k !in o :: m.value[k] == b[k])
  {
  }

  /** mergeQueryStrings, with its two copy loops. */
  method MergeQueryStrings(lib: Lib, base: string, override: string) returns (r: Result<string, string>)
    ensures r == MergedQuery(lib, base, override)
  {
    var baseValues := lib.parseQuery(base);
    if baseValues.Err? {
      return Err(baseValues.error);
    }
    var overrideValues := lib.parseQuery(override);
    if overrideValues.Err? {
      return Err(overrideValues.error);
    }
    var newValues := MergeValues(baseValues.value, overrideValues.value);
    r := NormalizeQueryString(lib, lib.encode(newValues));
  }

  /**
   * What mergeQueryStringsFromURLs returns: the request URI of the override
   * URL with its query replaced by the merge of both URLs' queries.
   */
  function MergedUrl(lib: Lib, base: string, override: string): (r: Result<string, string>)
    ensures lib.parse(base).Err? ==> r == Err(lib.parse(base).error)
    ensures lib.parse(base).Ok? && lib.parse(override).Err? ==> r == Err(lib.parse(override).error)
    ensures r.Ok? ==>
      lib.parse(base).Ok? && lib.parse(override).Ok? &&
      MergedQuery(lib, lib.parse(base).value.rawQuery, lib.parse(override).value.rawQuery).Ok? &&
      exists u: Url ::
        r.value == lib.requestURI(u) &&
        u.other == lib.parse(override).value.other && u.path == lib.parse(override).value.path &&
        u.rawQuery == MergedQuery(lib, lib.parse(base).value.rawQuery, lib.parse(override).value.rawQuery).value
  {
    match lib.parse(base)
    case Err(e) => Err(e)
    case Ok(b) =>
      match lib.parse(override)
      case Err(e) => Err(e)
      case Ok(o) =>
        match MergedQuery(lib, b.rawQuery, o.rawQuery)
        case Err(e) => Err(e)
        case Ok(query) =>
          var u := o.(rawQuery := query);
          assert u.other == o.other && u.path == o.path && u.rawQuery == query;
          Ok(lib.requestURI(u))
  }

  /** mergeQueryStringsFromURLs. */
  method MergeQueryStringsFromURLs(lib: Lib, base: string, override: string) returns (r: Result<string, string>)
    ensures r == MergedUrl(lib, base, override)
  {
    var urlBase := lib.parse(base);
    if urlBase.Err? {
      return Err(urlBase.error);
    }
    var urlOverride := lib.parse(override);
    if urlOverride.Err? {
      return Err(urlOverride.error);
    }
    var query := MergeQueryStrings(lib, urlBase.value.rawQuery, urlOverride.value.rawQuery);
    if query.Err? {
      return Err(query.error);
    }
    r := Ok(lib.requestURI(urlOverride.value.(rawQuery := query.value)));
  }

  /**
   * normalizeRedirectRequest of pkg/provider: the request URL with its query
   * normalised; the path and everything else are untouched.
   */
  function NormalizedRequest(lib: Lib, u: Url): (r: Result<Url, string>)
    ensures r.Err? <==> lib.parseQuery(u.rawQuery).Err?
    ensures r.Ok? ==> r.value.other == u.other && r.value.path == u.path &&
                      r.value.rawQuery == NormalizeQueryString(lib, u.rawQuery).value
  {
    match NormalizeQueryString(lib, u.rawQuery)
    case Err(e) => Err(e)
    case Ok(query) => Ok(u.(rawQuery := query))
  }

  /** Normalising a normalised request changes nothing when its values encode faithfully. */
  lemma NormalizedRequestIdempotent(lib: Lib, u: Url)
    requires lib.parseQuery(u.rawQuery).Ok? && EncodeRoundTrips(lib, lib.parseQuery(u.rawQuery).value)
    ensures NormalizedRequest(lib, NormalizedRequest(lib, u).value) == NormalizedRequest(lib, u)
  {
    NormalizeIdempotent(lib, u.rawQuery);
  }
}
