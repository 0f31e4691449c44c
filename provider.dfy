/**
 * Resolving an incoming request to a redirect (pkg/provider): the provider
 * holds a snapshot of every dimension's redirects, replaced wholesale by
 * each successful load, and answers a request by an exact lookup, a
 * path-only lookup for definitions that respect parameters, the matcher
 * functions and, when enabled, the standard rules.
 */
module Provider {
  import opened Wrappers
  import opened Store
  import opened Urls

  /** store.Redirect: the response location and the status code. */
  datatype Redirect = Redirect(response: string, code: int)

  /** A MatcherFunc, applied to the (normalised) request URL. */
  type Matcher = Url -> (Option<RedirectDefinition>, Option<string>)

  /**
   * The store.RedirectRequest methods the provider calls, whose bodies are
   * not part of this model: IsHomepage, HasPrefix, Contains and
   * GenericTransform (the transformed request and whether a redirect is needed).
   */
  datatype RequestLib = RequestLib(
    isHomepage: string -> Result<bool, string>,
    hasPrefix: (string, seq<string>) -> bool,
    contains: (string, seq<string>) -> bool,
    genericTransform: string -> Result<(string, bool), string>)

  /** The provider options. */
  datatype ProviderOption = WithMatcherFuncs(funcs: seq<Matcher>) | WithUseStandardRedirects

  const NoRedirectsLoaded: string := "no redirects loaded"
  const BlacklistPrefixes: seq<string> := ["/services", "/gateway"]
  const BlacklistContains: seq<string> := ["/_next/"]

  /** The configuration after one option; an option that fails leaves it as it was. */
  function ApplyOption(config: (seq<Matcher>, bool), option: ProviderOption): (seq<Matcher>, bool)
  {
    match option
    case WithMatcherFuncs(funcs) => if funcs == [] then config else (funcs, config.1)
    case WithUseStandardRedirects => (config.0, true)
  }

  /** The matcher list and the standard-redirect flag after applying `options` in order. */
  function Configured(options: seq<ProviderOption>): (seq<Matcher>, bool)
  {
    if options == [] then ([], false) else ApplyOption(Configured(options[..|options| - 1]), options[|options| - 1])
  }

  /** An option that installs matcher functions: one that lists at least one. */
  predicate Installs(option: ProviderOption)
  {
    option.WithMatcherFuncs? && option.funcs != []
  }

  /**
   * Standard redirects are on exactly when some option asks for them; the
   * matcher list is that of the last option that lists any, and empty when
   * none does: an empty WithMatcherFuncs is skipped.
   */
  lemma {:induction false} ConfiguredMeaning(options: seq<ProviderOption>)
    ensures Configured(options).1 <==> exists i | 0 <= i < |options| :: options[i].WithUseStandardRedirects?
    ensures Configured(options).0 == [] <==> forall i | 0 <= i < |options| :: !Installs(options[i])
    ensures Configured(options).0 != [] ==>
      exists i | 0 <= i < |options| :: Installs(options[i]) && options[i].funcs == Configured(options).0 &&
        forall j | i < j < |options| :: !Installs(options[j])
  {
    if options != [] {
      var n := |options| - 1;
      var prefix := options[..n];
      ConfiguredMeaning(prefix);
      assert forall i | 0 <= i < n :: options[i] == prefix[i];
      if Installs(options[n]) {
        assert options[n].funcs == Configured(options).0;
      } else if Configured(options).0 != [] {
        assert Configured(options).0 == Configured(prefix).0;
        var i :| 0 <= i < n && Installs(prefix[i]) && prefix[i].funcs == Configured(prefix).0 &&
          forall j | i < j < n :: !Installs(prefix[j]);
        assert Installs(options[i]) && options[i].funcs == Configured(options).0;
      }
      if options[n].WithUseStandardRedirects? {
        assert Configured(options).1;
      }
    }
  }

  /** NewProvider's option loop: each option in turn, skipping those that fail. */
  method ApplyOptions(options: seq<ProviderOption>) returns (matcherFuncs: seq<Matcher>, useStandardRedirects: bool)
    ensures (matcherFuncs, useStandardRedirects) == Configured(options)
  {
    matcherFuncs, useStandardRedirects := [], false;
    var i := 0;
    while i < |options|
      invariant i <= |options|
      invariant (matcherFuncs, useStandardRedirects) == Configured(options[..i])
    {
      assert options[..i + 1][..i] == options[..i];
      match options[i] {
        case WithMatcherFuncs(funcs) =>
          if |funcs| != 0 {
            matcherFuncs := funcs;
          }
        case WithUseStandardRedirects =>
          useStandardRedirects := true;
      }
      i := i + 1;
    }
    assert options[..i] == options;
  }

  /**
   * loadRedirects' error: the provider's error first, then the client's,
   * then a missing snapshot; None exactly when a snapshot was delivered
   * with no error.
   */
  function LoadError<T>(fetched: Option<T>, err: Option<string>, clientErr: Option<string>): (e: Option<string>)
    ensures e.None? <==> err.None? && clientErr.None? && fetched.Some?
    ensures err.Some? ==> e == err
    ensures err.None? && clientErr.Some? ==> e == clientErr
    ensures err.None? && clientErr.None? && fetched.None? ==> e == Some(NoRedirectsLoaded)
  {
    if err.Some? then err
    else if clientErr.Some? then clientErr
    else if fetched.Some? then None
    else Some(NoRedirectsLoaded)
  }

  /** The stored definition for a source in a dimension; None when either is missing. */
  function DefinitionFor(redirects: map<Dimension, Index>, dimension: Dimension, source: Source): (d: Option<RedirectDefinition>)
    ensures d.Some? <==> dimension in redirects && source in redirects[dimension]
    ensures d.Some? ==> d.value == redirects[dimension][source]
  {
    if dimension in redirects && source in redirects[dimension] then Some(redirects[dimension][source]) else None
  }

  /**
   * isBlacklisted: the homepage, anything under /services or /gateway, and
   * anything containing /_next/ is left alone; a request whose homepage
   * check fails is not.
   */
  predicate Blacklisted(requests: RequestLib, uri: string): (b: bool)
    ensures requests.isHomepage(uri).Err? ==> !b
    ensures requests.isHomepage(uri) == Ok(true) ==> b
    ensures requests.isHomepage(uri).Ok? ==>
      (b <==> requests.isHomepage(uri).value || requests.hasPrefix(uri, ["/services", "/gateway"]) || requests.contains(uri, ["/_next/"]))
  {
    var home := requests.isHomepage(uri);
    home.Ok? && (home.value || requests.hasPrefix(uri, BlacklistPrefixes) || requests.contains(uri, BlacklistContains))
  }

  /** Whether a matcher's answer ends the search: a definition together with an error. */
  predicate Decisive(answer: (Option<RedirectDefinition>, Option<string>))
  {
    answer.0.Some? && answer.1.Some?
  }

  /** execMatcherFuncs from the pair the previous matcher left behind. */
  function MatcherOutcome(matchers: seq<Matcher>, u: Url, last: (Option<RedirectDefinition>, Option<string>)): (Option<RedirectDefinition>, Option<string>)
  {
    if matchers == [] then last
    else
      var answer := matchers[0](u);
      if Decisive(answer) then (answer.0, None) else MatcherOutcome(matchers[1..], u, answer)
  }

  function ExecMatchers(matchers: seq<Matcher>, u: Url): (Option<RedirectDefinition>, Option<string>)
  {
    MatcherOutcome(matchers, u, (None, None))
  }

  /** With no decisive matcher, the loop ends with the last matcher's answer, or the pair it started from. */
  lemma {:induction false} NoDecisiveOutcome(matchers: seq<Matcher>, u: Url, last: (Option<RedirectDefinition>, Option<string>))
    requires forall i | 0 <= i < |matchers| :: !Decisive(matchers[i](u))
    ensures MatcherOutcome(matchers, u, last) == if matchers == [] then last else matchers[|matchers| - 1](u)
  {
    if matchers != [] {
      assert !Decisive(matchers[0](u));
      forall i | 0 <= i < |matchers| - 1
        ensures !Decisive(matchers[1..][i](u))
      {
        assert matchers[1..][i] == matchers[i + 1];
      }
      NoDecisiveOutcome(matchers[1..], u, matchers[0](u));
      if |matchers| > 1 {
        assert matchers[1..][|matchers| - 2] == matchers[|matchers| - 1];
      }
    }
  }

  /** The first decisive matcher ends the loop with its definition and no error. */
  lemma {:induction false} FirstDecisiveOutcome(matchers: seq<Matcher>, u: Url, last: (Option<RedirectDefinition>, Option<string>), i: nat)
    requires i < |matchers| && Decisive(matchers[i](u))
    requires forall j | 0 <= j < i :: !Decisive(matchers[j](u))
    ensures MatcherOutcome(matchers, u, last) == (matchers[i](u).0, None)
  {
    if i > 0 {
      assert !Decisive(matchers[0](u));
      forall j | 0 <= j < i - 1
        ensures !Decisive(matchers[1..][j](u))
      {
        assert matchers[1..][j] == matchers[j + 1];
      }
      assert matchers[1..][i - 1] == matchers[i];
      FirstDecisiveOutcome(matchers[1..], u, matchers[0](u), i - 1);
    }
  }

  /**
   * execMatcherFuncs: the first matcher that answers with a definition and
   * an error ends the search with that definition and no error; otherwise
   * the last matcher's answer is returned as it is, and no matcher at all
   * means no definition and no error.
   */
  lemma ExecMatchersMeaning(matchers: seq<Matcher>, u: Url)
    ensures matchers == [] ==> ExecMatchers(matchers, u) == (None, None)
    ensures (forall i | 0 <= i < |matchers| :: !Decisive(matchers[i](u))) && matchers != [] ==>
      ExecMatchers(matchers, u) == matchers[|matchers| - 1](u)
    ensures forall i | 0 <= i < |matchers| :: Decisive(matchers[i](u)) && (forall j | 0 <= j < i :: !Decisive(matchers[j](u))) ==>
      ExecMatchers(matchers, u) == (matchers[i](u).0, None)
  {
    if forall i | 0 <= i < |matchers| :: !Decisive(matchers[i](u)) {
      NoDecisiveOutcome(matchers, u, (None, None));
    }
    forall i | 0 <= i < |matchers| && Decisive(matchers[i](u)) && (forall j | 0 <= j < i :: !Decisive(matchers[j](u)))
      ensures ExecMatchers(matchers, u) == (matchers[i](u).0, None)
    {
      FirstDecisiveOutcome(matchers, u, (None, None), i);
    }
  }

  /** A decisive answer anywhere means execMatcherFuncs reports a definition and never an error. */
  lemma DecisiveHidesError(matchers: seq<Matcher>, u: Url, i: nat)
    requires i < |matchers| && Decisive(matchers[i](u))
    ensures ExecMatchers(matchers, u).0.Some?
    ensures ExecMatchers(matchers, u).1.None?
  {
    var k := i;
    while exists j | 0 <= j < k :: Decisive(matchers[j](u))
      invariant 0 <= k <= i && Decisive(matchers[k](u))
      decreases k
    {
      var j :| 0 <= j < k && Decisive(matchers[j](u));
      k := j;
    }
    FirstDecisiveOutcome(matchers, u, (None, None), k);
  }

  /** matchRedirectDefinition's outcome. */
  function Matched(redirects: map<Dimension, Index>, matchers: seq<Matcher>, lib: Lib, u: Url, dimension: Dimension): Result<Option<RedirectDefinition>, string>
  {
    var uri := lib.requestURI(u);
    if DefinitionFor(redirects, dimension, uri).Some? then Ok(DefinitionFor(redirects, dimension, uri))
    else if '?' in uri && DefinitionFor(redirects, dimension, u.path).Some? && DefinitionFor(redirects, dimension, u.path).value.respectParams
    then Ok(DefinitionFor(redirects, dimension, u.path))
    else
      var answer := ExecMatchers(matchers, u);
      if answer.1.Some? then Err(answer.1.value) else Ok(answer.0)
  }

  /**
   * The lookup order: the whole request URI first; then, for a request
   * with a query, its path, but only for a definition that respects
   * parameters; the matchers only when neither lookup applies.
   */
  lemma MatchOrder(redirects: map<Dimension, Index>, matchers: seq<Matcher>, lib: Lib, u: Url, dimension: Dimension)
    ensures var uri := lib.requestURI(u);
      dimension in redirects && uri in redirects[dimension] ==>
        Matched(redirects, matchers, lib, u, dimension) == Ok(Some(redirects[dimension][uri]))
    ensures var uri := lib.requestURI(u);
      !(dimension in redirects && uri in redirects[dimension]) && '?' in uri &&
      dimension in redirects && u.path in redirects[dimension] && redirects[dimension][u.path].respectParams ==>
        Matched(redirects, matchers, lib, u, dimension) == Ok(Some(redirects[dimension][u.path]))
    ensures var uri := lib.requestURI(u);
      dimension !in redirects || (uri !in redirects[dimension] && ('?' !in uri || u.path !in redirects[dimension])) ==>
        Matched(redirects, matchers, lib, u, dimension) ==
          if ExecMatchers(matchers, u).1.Some? then Err(ExecMatchers(matchers, u).1.value) else Ok(ExecMatchers(matchers, u).0)
    ensures Matched(redirects, matchers, lib, u, dimension).Err? ==> ExecMatchers(matchers, u).1.Some?
  {
  }

  /** A path-only hit that does not respect parameters is passed over. */
  lemma PathHitWithoutRespectParamsIgnored(redirects: map<Dimension, Index>, lib: Lib, u: Url, dimension: Dimension)
    requires lib.requestURI(u) != u.path && '?' in lib.requestURI(u)
    requires dimension in redirects && lib.requestURI(u) !in redirects[dimension]
    requires u.path in redirects[dimension] && !redirects[dimension][u.path].respectParams
    ensures Matched(redirects, [], lib, u, dimension) == Ok(None)
  {
  }

  /** createRedirect's response: the code of the definition, and its target, with the request's query merged in when asked. */
  function Response(lib: Lib, uri: string, def: RedirectDefinition): (r: Result<Redirect, string>)
    ensures r.Ok? ==> r.value.code == def.code
    ensures !def.transferParams || '?' !in uri ==> r == Ok(Redirect(def.target, def.code))
    ensures def.transferParams && '?' in uri ==> (r.Err? <==> MergedUrl(lib, uri, def.target).Err?)
    ensures def.transferParams && '?' in uri && r.Ok? ==> r.value.response == MergedUrl(lib, uri, def.target).value
  {
    if !def.transferParams || '?' !in uri then Ok(Redirect(def.target, def.code))
    else
      match MergedUrl(lib, uri, def.target)
      case Err(e) => Err(e)
      case Ok(response) => Ok(Redirect(response, def.code))
  }

  /** createRedirect. */
  method CreateRedirect(lib: Lib, u: Url, def: RedirectDefinition) returns (r: Result<Redirect, string>)
    ensures r == Response(lib, lib.requestURI(u), def)
  {
    var uri := lib.requestURI(u);
    if !def.transferParams || '?' !in uri {
      return Ok(Redirect(def.target, def.code));
    }
    var response := MergeQueryStringsFromURLs(lib, uri, def.target);
    if response.Err? {
      return Err(response.error);
    }
    r := Ok(Redirect(response.value, def.code));
  }

  /** The definition checkForStandardRedirect synthesises: permanent, from the request to its transformed form, no parameters. */
  function StandardDefinition(source: Source, target: Target): RedirectDefinition
  {
    RedirectDefinition("", "", source, target, RedirectCodePermanent, false, false, "", "", false)
  }

  /** checkForStandardRedirect: the transformation's error, no definition, or the synthesised one. */
  function StandardRedirect(requests: RequestLib, uri: string): (r: Result<Option<RedirectDefinition>, string>)
    ensures r.Err? <==> requests.genericTransform(uri).Err?
    ensures r.Ok? ==> (r.value.Some? <==> requests.genericTransform(uri).value.1)
    ensures r.Ok? && r.value.Some? ==>
      r.value.value.source == uri && r.value.value.target == requests.genericTransform(uri).value.0 &&
      r.value.value.code == RedirectCodePermanent && !r.value.value.respectParams && !r.value.value.transferParams &&
      r.value.value.id == ""
  {
    match requests.genericTransform(uri)
    case Err(e) => Err(e)
    case Ok(transformed) => if transformed.1 then Ok(Some(StandardDefinition(uri, transformed.0))) else Ok(None)
  }

  /** A standard redirect never merges the request's query: its response is the transformed request, with code 301. */
  lemma StandardResponseIsTransformed(lib: Lib, requests: RequestLib, uri: string)
    requires StandardRedirect(requests, uri).Ok? && StandardRedirect(requests, uri).value.Some?
    ensures Response(lib, uri, StandardRedirect(requests, uri).value.value) ==
      Ok(Redirect(requests.genericTransform(uri).value.0, RedirectCodePermanent))
  {
  }

  /**
   * Process, for a request URL, given the snapshot, the matchers, the
   * standard-redirect flag and the dimension the request belongs to (or
   * the dimension provider's error).
   */
  function Processed(redirects: map<Dimension, Index>, matchers: seq<Matcher>, useStandardRedirects: bool,
                     lib: Lib, requests: RequestLib, dimension: Result<Dimension, string>, u: Url): Result<Option<Redirect>, string>
  {
    if dimension.Err? then Err(dimension.error)
    else
      match NormalizedRequest(lib, u)
      case Err(e) => Err(e)
      case Ok(request) =>
        var uri := lib.requestURI(request);
        if Blacklisted(requests, uri) then Ok(None)
        else
          match Matched(redirects, matchers, lib, request, dimension.value)
          case Err(e) => Err(e)
          case Ok(Some(def)) => ResponseOf(lib, uri, def)
          case Ok(None) =>
            if !useStandardRedirects then Ok(None)
            else
              match StandardRedirect(requests, uri)
              case Err(e) => Err(e)
              case Ok(None) => Ok(None)
              case Ok(Some(def)) => ResponseOf(lib, uri, def)
  }

  function ResponseOf(lib: Lib, uri: string, def: RedirectDefinition): Result<Option<Redirect>, string>
  {
    match Response(lib, uri, def)
    case Err(e) => Err(e)
    case Ok(redirect) => Ok(Some(redirect))
  }

  /**
   * Process in order: the dimension provider's error comes first, then a
   * normalisation error; a blacklisted request gets no redirect and no
   * error; without a matching definition and with standard redirects off
   * there is no redirect either.
   */
  lemma ProcessOrder(redirects: map<Dimension, Index>, matchers: seq<Matcher>, useStandardRedirects: bool,
                     lib: Lib, requests: RequestLib, dimension: Result<Dimension, string>, u: Url)
    ensures dimension.Err? ==> Processed(redirects, matchers, useStandardRedirects, lib, requests, dimension, u) == Err(dimension.error)
    ensures dimension.Ok? && lib.parseQuery(u.rawQuery).Err? ==>
      Processed(redirects, matchers, useStandardRedirects, lib, requests, dimension, u) == Err(lib.parseQuery(u.rawQuery).error)
    ensures dimension.Ok? && NormalizedRequest(lib, u).Ok? && Blacklisted(requests, lib.requestURI(NormalizedRequest(lib, u).value)) ==>
      Processed(redirects, matchers, useStandardRedirects, lib, requests, dimension, u) == Ok(None)
    ensures dimension.Ok? && NormalizedRequest(lib, u).Ok? && !useStandardRedirects &&
            Matched(redirects, matchers, lib, NormalizedRequest(lib, u).value, dimension.value) == Ok(None) ==>
      Processed(redirects, matchers, useStandardRedirects, lib, requests, dimension, u) == Ok(None)
  {
  }

  /**
   * A redirect Process answers with comes either from a matched definition,
   * whose code it carries, or from the standard rules, with code 301 and
   * the transformed request as its location.
   */
  lemma ProcessedRedirectOrigin(redirects: map<Dimension, Index>, matchers: seq<Matcher>, useStandardRedirects: bool,
                                lib: Lib, requests: RequestLib, dimension: Result<Dimension, string>, u: Url)
    requires Processed(redirects, matchers, useStandardRedirects, lib, requests, dimension, u).Ok?
    requires Processed(redirects, matchers, useStandardRedirects, lib, requests, dimension, u).value.Some?
    ensures dimension.Ok? && NormalizedRequest(lib, u).Ok?
    ensures var request := NormalizedRequest(lib, u).value;
            var uri := lib.requestURI(request);
            var redirect := Processed(redirects, matchers, useStandardRedirects, lib, requests, dimension, u).value.value;
            var matched := Matched(redirects, matchers, lib, request, dimension.value);
      !Blacklisted(requests, uri) && matched.Ok? &&
      (matched.value.Some? ==> redirect.code == matched.value.value.code) &&
      (matched.value.None? ==>
        useStandardRedirects && redirect == Redirect(requests.genericTransform(uri).value.0, RedirectCodePermanent))
  {
    var request := NormalizedRequest(lib, u).value;
    var uri := lib.requestURI(request);
    if Matched(redirects, matchers, lib, request, dimension.value) == Ok(None) {
      StandardResponseIsTransformed(lib, requests, uri);
    }
  }

  /** The redirects provider: its snapshot, its matcher functions and whether the standard rules apply. */
  class RedirectsProvider {
    var redirects: map<Dimension, Index>
    var matcherFuncs: seq<Matcher>
    var useStandardRedirects: bool
    const lib: Lib
    const requests: RequestLib
    /** The dimension provider. */
    const dimensionOf: Url -> Result<Dimension, string>

    /** NewProvider: no snapshot until the first load, and the options applied in order. */
    constructor (lib: Lib, requests: RequestLib, dimensionOf: Url -> Result<Dimension, string>, options: seq<ProviderOption>)
      ensures redirects == map[] && (matcherFuncs, useStandardRedirects) == Configured(options)
      ensures this.lib == lib && this.requests == requests && this.dimensionOf == dimensionOf
    {
      var funcs, standard := ApplyOptions(options);
      this.lib := lib;
      this.requests := requests;
      this.dimensionOf := dimensionOf;
      redirects := map[];
      matcherFuncs := funcs;
      useStandardRedirects := standard;
    }

    /**
     * loadRedirects, given what the redirects provider function delivered:
     * the snapshot is replaced only by a successful load.
     */
    method LoadRedirects(fetched: Option<map<Dimension, Index>>, err: Option<string>, clientErr: Option<string>)
      returns (e: Option<string>)
      modifies this
      ensures e == LoadError(fetched, err, clientErr)
      ensures redirects == if e.None? then fetched.value else old(redirects)
      ensures matcherFuncs == old(matcherFuncs) && useStandardRedirects == old(useStandardRedirects)
    {
      if err.Some? {
        return err;
      }
      if clientErr.Some? {
        return clientErr;
      }
      if fetched.Some? {
        redirects := fetched.value;
        return None;
      }
      return Some(NoRedirectsLoaded);
    }

    /** execMatcherFuncs: the loop over the matchers, with its early return. */
    method ExecMatcherFuncs(u: Url) returns (definition: Option<RedirectDefinition>, err: Option<string>)
      ensures (definition, err) == ExecMatchers(matcherFuncs, u)
    {
      definition, err := None, None;
      var i := 0;
      while i < |matcherFuncs|
        invariant i <= |matcherFuncs|
        invariant ExecMatchers(matcherFuncs, u) == MatcherOutcome(matcherFuncs[i..], u, (definition, err))
      {
        assert matcherFuncs[i..][1..] == matcherFuncs[i + 1..];
        var answer := matcherFuncs[i](u);
        definition, err := answer.0, answer.1;
        if err.Some? && definition.Some? {
          return definition, None;
        }
        i := i + 1;
      }
    }

    /** matchRedirectDefinition. */
    method MatchRedirectDefinition(u: Url, dimension: Dimension) returns (r: Result<Option<RedirectDefinition>, string>)
      ensures r == Matched(redirects, matcherFuncs, lib, u, dimension)
    {
      var uri := lib.requestURI(u);
      var definition := DefinitionFor(redirects, dimension, uri);
      if definition.Some? {
        return Ok(definition);
      }
      if '?' in uri {
        var byPath := DefinitionFor(redirects, dimension, u.path);
        if byPath.Some? && byPath.value.respectParams {
          return Ok(byPath);
        }
      }
      var found, err := ExecMatcherFuncs(u);
      if err.Some? {
        return Err(err.value);
      }
      return Ok(found);
    }

    /** Process. */
    method Process(u: Url) returns (r: Result<Option<Redirect>, string>)
      ensures r == Processed(redirects, matcherFuncs, useStandardRedirects, lib, requests, dimensionOf(u), u)
    {
      var dimension := dimensionOf(u);
      if dimension.Err? {
        return Err(dimension.error);
      }
      var request := NormalizedRequest(lib, u);
      if request.Err? {
        return Err(request.error);
      }
      var uri := lib.requestURI(request.value);
      if Blacklisted(requests, uri) {
        return Ok(None);
      }
      var definition := MatchRedirectDefinition(request.value, dimension.value);
      if definition.Err? {
        return Err(definition.error);
      }
      if definition.value.None? && useStandardRedirects {
        definition := StandardRedirect(requests, uri);
        if definition.Err? {
          return Err(definition.error);
        }
      }
      if definition.value.None? {
        return Ok(None);
      }
      var redirect := CreateRedirect(lib, request.value, definition.value.value);
      if redirect.Err? {
        return Err(redirect.error);
      }
      return Ok(Some(redirect.value));
    }
  }
}
