/**
 * The older, single-dimension request provider
 * (domain/redirectdefinition/provider): one map from source to definition,
 * matcher functions fixed at construction, a lookup that tries the matchers
 * before the path-only hit, matcher errors that never surface, and the
 * standard rules always tried last.
 */
module LegacyProvider {
  import opened Wrappers
  import opened Store
  import opened Urls
  import opened Provider

  /** filepath.Split (directory and file name) and filepath.Ext. */
  datatype PathLib = PathLib(split: string -> (string, string), ext: string -> string)

  /**
   * extractLegacyID: the file name of the request's path without its
   * extension, or the parse error.
   */
  function LegacyID(lib: Lib, paths: PathLib, request: string): (r: Result<string, string>)
    ensures r.Err? <==> lib.parse(request).Err?
    ensures r.Ok? ==>
      var file := paths.split(lib.parse(request).value.path).1;
      r.value == TrimSuffix(file, paths.ext(file)) &&
      (r.value == file || r.value + paths.ext(file) == file)
  {
    match lib.parse(request)
    case Err(e) => Err(e)
    case Ok(u) =>
      var file := paths.split(u.path).1;
      Ok(TrimSuffix(file, paths.ext(file)))
  }

  /**
   * The URL transformation of the older normalizeRedirectRequest: one
   * trailing slash dropped from the path, the query normalised.
   */
  function NormalizedUrl(lib: Lib, u: Url): (r: Result<Url, string>)
    ensures r.Err? <==> lib.parseQuery(u.rawQuery).Err?
    ensures r.Ok? ==>
      r.value.other == u.other && r.value.path == TrimSuffix(u.path, "/") &&
      r.value.rawQuery == NormalizeQueryString(lib, u.rawQuery).value
  {
    match NormalizeQueryString(lib, u.rawQuery)
    case Err(e) => Err(e)
    case Ok(query) => Ok(u.(path := TrimSuffix(u.path, "/"), rawQuery := query))
  }

  /** normalizeRedirectRequest on a request string: parse, transform, render the request URI again. */
  function NormalizedRequestString(lib: Lib, request: string): (r: Result<string, string>)
    ensures lib.parse(request).Err? ==> r == Err(lib.parse(request).error)
    ensures r.Ok? ==> lib.parse(request).Ok? && NormalizedUrl(lib, lib.parse(request).value).Ok? &&
                      r.value == lib.requestURI(NormalizedUrl(lib, lib.parse(request).value).value)
  {
    match lib.parse(request)
    case Err(e) => Err(e)
    case Ok(u) =>
      match NormalizedUrl(lib, u)
      case Err(e) => Err(e)
      case Ok(v) => Ok(lib.requestURI(v))
  }

  /** Only one slash is dropped: "/a/" loses it, "/a//" keeps one, and the root path becomes empty. */
  lemma TrimsOneSlash()
    ensures TrimSuffix("/a/", "/") == "/a"
    ensures TrimSuffix("/a//", "/") == "/a/"
    ensures TrimSuffix("/a", "/") == "/a"
    ensures TrimSuffix("/", "/") == ""
  {
    assert "/a/"[2..] == "/";
    assert "/a//"[3..] == "/";
    assert "/a"[1..] != "/";
  }

  /** The older execMatcherFuncs: the definition of the first decisive matcher, and nothing otherwise. */
  function FirstDecisive(matchers: seq<Matcher>, u: Url): Option<RedirectDefinition>
  {
    if matchers == [] then None
    else if Decisive(matchers[0](u)) then matchers[0](u).0
    else FirstDecisive(matchers[1..], u)
  }

  /**
   * The older matcher loop finds a definition exactly when some matcher is
   * decisive, and then it agrees with the newer one; otherwise it reports
   * nothing, where the newer one passes on the last matcher's answer.
   */
  lemma {:induction false} FirstDecisiveMeaning(matchers: seq<Matcher>, u: Url)
    ensures FirstDecisive(matchers, u).Some? <==> exists i | 0 <= i < |matchers| :: Decisive(matchers[i](u))
    ensures FirstDecisive(matchers, u).Some? ==> ExecMatchers(matchers, u) == (FirstDecisive(matchers, u), None)
  {
    if matchers != [] {
      FirstDecisiveMeaning(matchers[1..], u);
      assert forall i | 1 <= i < |matchers| :: matchers[i] == matchers[1..][i - 1];
      if !Decisive(matchers[0](u)) && FirstDecisive(matchers, u).Some? {
        MatcherOutcomeFrom(matchers[1..], u, matchers[0](u));
      }
      if exists i | 0 <= i < |matchers| :: Decisive(matchers[i](u)) {
        var i :| 0 <= i < |matchers| && Decisive(matchers[i](u));
        if i > 0 {
          assert Decisive(matchers[1..][i - 1](u));
        }
      }
    }
  }

  /** Once a later matcher is decisive, the answer left by an earlier one no longer matters. */
  lemma {:induction false} MatcherOutcomeFrom(matchers: seq<Matcher>, u: Url, last: (Option<RedirectDefinition>, Option<string>))
    requires FirstDecisive(matchers, u).Some?
    ensures MatcherOutcome(matchers, u, last) == MatcherOutcome(matchers, u, (None, None))
  {
    if !Decisive(matchers[0](u)) {
      MatcherOutcomeFrom(matchers[1..], u, matchers[0](u));
    }
  }

  /** The older matchRedirectDefinition: the whole URI, then the matchers, then the path for a definition that respects parameters. */
  function LegacyMatched(redirects: Index, matchers: seq<Matcher>, lib: Lib, u: Url): Option<RedirectDefinition>
  {
    var uri := lib.requestURI(u);
    if uri in redirects then Some(redirects[uri])
    else if FirstDecisive(matchers, u).Some? then FirstDecisive(matchers, u)
    else if '?' in uri && u.path in redirects && redirects[u.path].respectParams then Some(redirects[u.path])
    else None
  }

  /**
   * Without matcher functions the older lookup and the newer one agree on
   * the dimension holding the older provider's map.
   */
  lemma LegacyAgreesWithoutMatchers(redirects: Index, lib: Lib, u: Url, dimension: Dimension)
    ensures Matched(map[dimension := redirects], [], lib, u, dimension) == Ok(LegacyMatched(redirects, [], lib, u))
  {
  }

  /**
   * The order matters: when the whole URI has no definition but its path
   * has one that respects parameters, a decisive matcher wins in the older
   * lookup and loses in the newer one.
   */
  lemma LookupOrdersDiffer(redirects: Index, matchers: seq<Matcher>, lib: Lib, u: Url, dimension: Dimension)
    requires lib.requestURI(u) !in redirects && '?' in lib.requestURI(u)
    requires u.path in redirects && redirects[u.path].respectParams
    requires matchers != [] && Decisive(matchers[0](u))
    ensures LegacyMatched(redirects, matchers, lib, u) == matchers[0](u).0
    ensures Matched(map[dimension := redirects], matchers, lib, u, dimension) == Ok(Some(redirects[u.path]))
  {
  }

  /** The older Process, for a request URL. */
  function LegacyProcessed(redirects: Index, matchers: seq<Matcher>, lib: Lib, requests: RequestLib, u: Url): Result<Option<Redirect>, string>
  {
    match NormalizedUrl(lib, u)
    case Err(e) => Err(e)
    case Ok(request) =>
      var uri := lib.requestURI(request);
      if Blacklisted(requests, uri) then Ok(None)
      else
        match LegacyMatched(redirects, matchers, lib, request)
        case Some(def) => ResponseOf(lib, uri, def)
        case None =>
          match StandardRedirect(requests, uri)
          case Err(e) => Err(e)
          case Ok(None) => Ok(None)
          case Ok(Some(def)) => ResponseOf(lib, uri, def)
  }

  /**
   * The older Process always falls back to the standard rules; a matcher's
   * error never reaches the caller, so for a request without a query (no
   * merge to fail) a normalised request fails only in the standard rules.
   */
  lemma LegacyProcessMeaning(redirects: Index, matchers: seq<Matcher>, lib: Lib, requests: RequestLib, u: Url)
    ensures var n := NormalizedUrl(lib, u);
      n.Ok? && !Blacklisted(requests, lib.requestURI(n.value)) && LegacyMatched(redirects, matchers, lib, n.value).None? &&
      StandardRedirect(requests, lib.requestURI(n.value)).Ok? && StandardRedirect(requests, lib.requestURI(n.value)).value.Some? ==>
        LegacyProcessed(redirects, matchers, lib, requests, u) ==
          Ok(Some(Redirect(requests.genericTransform(lib.requestURI(n.value)).value.0, RedirectCodePermanent)))
    ensures var n := NormalizedUrl(lib, u);
      LegacyProcessed(redirects, matchers, lib, requests, u).Err? && n.Ok? && '?' !in lib.requestURI(n.value) ==>
        StandardRedirect(requests, lib.requestURI(n.value)).Err?
  {
    var n := NormalizedUrl(lib, u);
    if n.Ok? {
      var uri := lib.requestURI(n.value);
      if StandardRedirect(requests, uri).Ok? && StandardRedirect(requests, uri).value.Some? {
        StandardResponseIsTransformed(lib, requests, uri);
      }
    }
  }

  /** The older redirects provider: one map from source to definition and a fixed list of matchers. */
  class LegacyRedirectsProvider {
    var redirects: Index
    const matcherFuncs: seq<Matcher>
    const lib: Lib
    const requests: RequestLib

    /** NewProvider: the matchers as given, no snapshot until the first load. */
    constructor (lib: Lib, requests: RequestLib, matcherFuncs: seq<Matcher>)
      ensures redirects == map[]
      ensures this.lib == lib && this.requests == requests && this.matcherFuncs == matcherFuncs
    {
      this.lib := lib;
      this.requests := requests;
      this.matcherFuncs := matcherFuncs;
      redirects := map[];
    }

    /** loadRedirects: the same precedence of errors; the map is replaced only on success. */
    method LoadRedirects(fetched: Option<Index>, err: Option<string>, clientErr: Option<string>) returns (e: Option<string>)
      modifies this
      ensures e == LoadError(fetched, err, clientErr)
      ensures redirects == if e.None? then fetched.value else old(redirects)
    {
      if err.Some? {
        return err;
      } else if clientErr.Some? {
        return clientErr;
      } else if fetched.Some? {
        redirects := fetched.value;
        return None;
      }
      return Some(NoRedirectsLoaded);
    }

    /** execMatcherFuncs: returns at the first decisive matcher, and with nothing after the loop. */
    method ExecMatcherFuncs(u: Url) returns (definition: Option<RedirectDefinition>)
      ensures definition == FirstDecisive(matcherFuncs, u)
    {
      var i := 0;
      while i < |matcherFuncs|
        invariant i <= |matcherFuncs|
        invariant FirstDecisive(matcherFuncs, u) == FirstDecisive(matcherFuncs[i..], u)
      {
        assert matcherFuncs[i..][1..] == matcherFuncs[i + 1..];
        var answer := matcherFuncs[i](u);
        if answer.1.Some? && answer.0.Some? {
          return answer.0;
        }
        i := i + 1;
      }
      return None;
    }

    /** matchRedirectDefinition. */
    method MatchRedirectDefinition(u: Url) returns (definition: Option<RedirectDefinition>)
      ensures definition == LegacyMatched(redirects, matcherFuncs, lib, u)
    {
      var uri := lib.requestURI(u);
      if uri in redirects {
        return Some(redirects[uri]);
      }
      definition := ExecMatcherFuncs(u);
      if definition.Some? {
        return definition;
      }
      if '?' in uri && u.path in redirects && redirects[u.path].respectParams {
        return Some(redirects[u.path]);
      }
      return None;
    }

    /** Process. */
    method Process(u: Url) returns (r: Result<Option<Redirect>, string>)
      ensures r == LegacyProcessed(redirects, matcherFuncs, lib, requests, u)
    {
      var request := NormalizedUrl(lib, u);
      if request.Err? {
        return Err(request.error);
      }
      var uri := lib.requestURI(request.value);
      if Blacklisted(requests, uri) {
        return Ok(None);
      }
      var definition := MatchRedirectDefinition(request.value);
      if definition.None? {
        var standard := StandardRedirect(requests, uri);
        if standard.Err? {
          return Err(standard.error);
        }
        definition := standard.value;
      }
      if definition.Some? {
        var redirect := CreateRedirect(lib, request.value, definition.value);
        if redirect.Err? {
          return Err(redirect.error);
        }
        return Ok(Some(redirect.value));
      }
      return Ok(None);
    }
  }
}
