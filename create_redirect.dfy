/**
 * Creating one redirect by hand (command/createredirect.go): the handler
 * inserts the definition, the validate middleware refuses a redirect to
 * itself or from a restricted source, and the publish middleware signals the
 * sites once the inner handler has succeeded.
 */
module CreateRedirectCommand {
  import opened Wrappers
  import opened Store
  import opened Backend
  import opened Validation

  /** Why creating the redirect failed: refused by a check, or an error of the store or the message bus. */
  datatype Failure = Rejected(rejection: Rejection) | Failed(cause: string)

  /** The checks of ValidateRedirectMiddleware, in the order they run. */
  function MiddlewareCheck(def: RedirectDefinition, patterns: seq<string>, matches: Matcher): Option<Rejection>
  {
    var source := ToLower(def.source);
    var target := ToLower(def.target);
    if source == target then Some(SameSourceAndTarget)
    else
      match FirstRestricted(patterns, source, matches)
      case Some(pattern) => Some(RestrictedSource(def.source, pattern))
      case None => None
  }

  /**
   * The middleware lets a definition through exactly when its lower-cased
   * source and target differ and no lower-cased restricted pattern matches
   * its lower-cased source.
   */
  lemma MiddlewareCheckIff(def: RedirectDefinition, patterns: seq<string>, matches: Matcher)
    ensures MiddlewareCheck(def, patterns, matches).None? <==>
      ToLower(def.source) != ToLower(def.target) && forall p | p in patterns :: !matches(ToLower(p), ToLower(def.source))
    ensures MiddlewareCheck(def, patterns, matches).Some? && MiddlewareCheck(def, patterns, matches).value.RestrictedSource? ==>
      matches(MiddlewareCheck(def, patterns, matches).value.pattern, ToLower(def.source))
  {
    FirstRestrictedIff(patterns, ToLower(def.source), matches);
  }

  /**
   * ValidateRedirectMiddleware up to the call of the next handler: None when
   * the next handler is to be called with the command unchanged.
   */
  method ValidateRedirectMiddleware(provider: Option<seq<string>>, def: RedirectDefinition, matches: Matcher)
    returns (rejection: Option<Rejection>)
    ensures rejection == MiddlewareCheck(def, Restrictions(provider), matches)
  {
    var patterns := Restrictions(provider);
    var source := ToLower(def.source);
    var target := ToLower(def.target);
    if source == target {
      return Some(SameSourceAndTarget);
    }
    var hit := MatchRestricted(patterns, source, matches);
    if hit.Some? {
      return Some(RestrictedSource(def.source, hit.value));
    }
    return None;
  }

  /**
   * Unlike validateRedirect, this middleware checks neither the homepage
   * nor cycles: a redirect from "/" passes it, where validateRedirect
   * refuses it before reading the store.
   */
  lemma MiddlewareLetsHomepageThrough(matches: Matcher, existing: Result<Index, string>)
    ensures MiddlewareCheck(Validation.Def("/", "/start"), [], matches).None?
    ensures Validated(Validation.Def("/", "/start"), [], matches, existing, CreateNext) == Err(HomepageSource)
  {
    assert ToLower("/") == "/";
    assert ToLower("/start") == "/start";
  }

  /** CreateRedirectHandler: one Insert of the command's definition. */
  method Handle(repo: Backend, def: RedirectDefinition) returns (err: Option<Failure>)
    modifies repo
    ensures repo.calls == old(repo.calls) + [Call.Insert(def)] && repo.failing == old(repo.failing)
    ensures repo.redirects == if InsertOp in repo.failing then old(repo.redirects) else Upserted(old(repo.redirects), [def])
    ensures err == if InsertOp in repo.failing then Some(Failed(StoreUnavailable)) else None
  {
    var e := repo.Insert(def);
    err := if e.Some? then Some(Failed(e.value)) else None;
  }

  /** CreateRedirectPublishMiddleware around the handler: the signal goes out only after a successful insert. */
  method HandleAndPublish(repo: Backend, def: RedirectDefinition) returns (err: Option<Failure>)
    modifies repo
    ensures repo.failing == old(repo.failing)
    ensures repo.redirects == if InsertOp in repo.failing then old(repo.redirects) else Upserted(old(repo.redirects), [def])
    ensures repo.calls == old(repo.calls) + [Call.Insert(def)] + if InsertOp in repo.failing then [] else [Call.Publish]
    ensures err == if InsertOp in repo.failing then Some(Failed(StoreUnavailable))
                   else if PublishOp in repo.failing then Some(Failed(PublishFailed)) else None
  {
    err := Handle(repo, def);
    if err.Some? {
      return;
    }
    var e := repo.Publish();
    if e.Some? {
      err := Some(Failed(e.value));
    }
  }

  /**
   * The create command as api.go wires it: the publish middleware outermost,
   * then validation against the stored redirects of the definition's
   * dimension, then the insert. The definition is inserted once, and only
   * when every check passed; the signal follows only a successful insert.
   */
  method CreateRedirectComposed(repo: Backend, provider: Option<seq<string>>, def: RedirectDefinition, matches: Matcher)
    returns (err: Option<Failure>)
    modifies repo
    ensures repo.failing == old(repo.failing)
    ensures var verdict := Validated(def, Restrictions(provider), matches,
                                     DimensionRead(old(repo.redirects), repo.failing, def.dimension, false), CreateNext);
      var read := if Precheck(def, Restrictions(provider), matches).None? then [Call.FindAllByDimension(def.dimension, false)] else [];
      (verdict.Err? ==>
        err == Some(Rejected(verdict.error)) && repo.redirects == old(repo.redirects) && repo.calls == old(repo.calls) + read) &&
      (verdict.Ok? ==>
        read != [] &&
        repo.redirects == (if InsertOp in repo.failing then old(repo.redirects) else Upserted(old(repo.redirects), [def])) &&
        repo.calls == old(repo.calls) + read + [Call.Insert(def)] + (if InsertOp in repo.failing then [] else [Call.Publish]) &&
        err == (if InsertOp in repo.failing then Some(Failed(StoreUnavailable))
                else if PublishOp in repo.failing then Some(Failed(PublishFailed)) else None))
  {
    var verdict := ValidateRedirect(repo, provider, def, CreateNext, matches);
    if verdict.Err? {
      return Some(Rejected(verdict.error));
    }
    err := HandleAndPublish(repo, verdict.value.def);
  }
}
