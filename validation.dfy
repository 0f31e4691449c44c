/**
 * The checks a redirect definition must pass before it is written
 * (validateRedirect in command/validation.go): not from the homepage, not to
 * itself, not from a restricted source, and not closing a cycle with the
 * redirects already stored in its dimension. Only then is the next handler
 * called, with the definition unchanged.
 */
module Validation {
  import opened Wrappers
  import opened Store
  import opened Backend
  import Cycles

  /** Lower-casing of the ASCII letters; every other character is kept. */
  function LowerChar(c: char): char
  {
    if 'A' <= c <= 'Z' then (c as int + 32) as char else c
  }

  function ToLower(s: string): string
  {
    seq(|s|, i requires 0 <= i < |s| => LowerChar(s[i]))
  }

  /**
   * path.Match(pattern, name)'s first result: whether the name matches the
   * glob. A malformed pattern reports no match, since its error is dropped.
   */
  type Matcher = (string, string) -> bool

  /** Why a definition is refused. */
  datatype Rejection =
    | HomepageSource
    | SameSourceAndTarget
    | RestrictedSource(source: Source, pattern: string)
    | FetchFailed(cause: string)
    | CyclicRedirect(source: Source, target: Target)
    | InvalidHandler

  /** The kinds of next handler: the type switch at the end of validateRedirect. */
  datatype Next = CreateNext | UpdateNext | OtherNext

  /** The command the next handler is called with. */
  datatype Forward = CreateRedirect(def: RedirectDefinition) | UpdateRedirect(def: RedirectDefinition)

  /** The restricted patterns: a nil provider restricts nothing. */
  function Restrictions(provider: Option<seq<string>>): seq<string>
  {
    if provider.Some? then provider.value else []
  }

  /** The first pattern, lower-cased, that matches `source`. */
  function FirstRestricted(patterns: seq<string>, source: string, matches: Matcher): Option<string>
  {
    if patterns == [] then None
    else if matches(ToLower(patterns[0]), source) then Some(ToLower(patterns[0]))
    else FirstRestricted(patterns[1..], source, matches)
  }

  /** No pattern is reported exactly when none matches; a reported one matches and no earlier one does. */
  lemma {:induction false} FirstRestrictedIff(patterns: seq<string>, source: string, matches: Matcher)
    ensures FirstRestricted(patterns, source, matches).None? <==> forall p | p in patterns :: !matches(ToLower(p), source)
    ensures FirstRestricted(patterns, source, matches).Some? ==>
      exists j | 0 <= j < |patterns| ::
        FirstRestricted(patterns, source, matches).value == ToLower(patterns[j]) && matches(ToLower(patterns[j]), source) &&
        forall i | 0 <= i < j :: !matches(ToLower(patterns[i]), source)
  {
    if patterns != [] && !matches(ToLower(patterns[0]), source) {
      FirstRestrictedIff(patterns[1..], source, matches);
      assert patterns == [patterns[0]] + patterns[1..];
      if FirstRestricted(patterns, source, matches).Some? {
        var j :| 0 <= j < |patterns[1..]| &&
          FirstRestricted(patterns[1..], source, matches).value == ToLower(patterns[1..][j]) && matches(ToLower(patterns[1..][j]), source) &&
          forall i | 0 <= i < j :: !matches(ToLower(patterns[1..][i]), source);
        assert patterns[j + 1] == patterns[1..][j];
        forall i | 0 <= i < j + 1
          ensures !matches(ToLower(patterns[i]), source)
        {
          if i > 0 {
            assert patterns[i] == patterns[1..][i - 1];
          }
        }
      }
    } else if patterns != [] {
      assert patterns[0] in patterns;
    }
  }

  /** The loop over the restricted patterns, returning at the first that matches. */
  method MatchRestricted(patterns: seq<string>, source: string, matches: Matcher) returns (hit: Option<string>)
    ensures hit == FirstRestricted(patterns, source, matches)
  {
    var j := 0;
    while j < |patterns|
      invariant j <= |patterns|
      invariant FirstRestricted(patterns, source, matches) == FirstRestricted(patterns[j..], source, matches)
    {
      assert patterns[j..][1..] == patterns[j + 1..];
      var restricted := ToLower(patterns[j]);
      if matches(restricted, source) {
        return Some(restricted);
      }
      j := j + 1;
    }
    return None;
  }

  /** The checks that need no store read, in the order they run. */
  function Precheck(def: RedirectDefinition, patterns: seq<string>, matches: Matcher): Option<Rejection>
  {
    var source := ToLower(def.source);
    var target := ToLower(def.target);
    if source == "/" then Some(HomepageSource)
    else if source == target then Some(SameSourceAndTarget)
    else
      match FirstRestricted(patterns, source, matches)
      case Some(pattern) => Some(RestrictedSource(def.source, pattern))
      case None => None
  }

  /** validateRedirect's outcome, given what reading the definition's dimension returns. */
  function Validated(def: RedirectDefinition, patterns: seq<string>, matches: Matcher,
                     existing: Result<Index, string>, next: Next): Result<Forward, Rejection>
  {
    if Precheck(def, patterns, matches).Some? then Err(Precheck(def, patterns, matches).value)
    else if existing.Err? then Err(FetchFailed(existing.error))
    else if Cycles.Cyclic(def.source, def.target, existing.value) then Err(CyclicRedirect(def.source, def.target))
    else
      match next
      case CreateNext => Ok(CreateRedirect(def))
      case UpdateNext => Ok(UpdateRedirect(def))
      case OtherNext => Err(InvalidHandler)
  }

  /**
   * A definition is passed on exactly when its lower-cased source is not the
   * homepage and differs from its lower-cased target, no restricted pattern
   * matches the lower-cased source, its dimension could be read, it closes
   * no cycle there and the next handler is of a known kind; it is then
   * passed on unchanged, as the command that kind of handler takes.
   */
  lemma ValidatedIff(def: RedirectDefinition, patterns: seq<string>, matches: Matcher, existing: Result<Index, string>, next: Next)
    ensures Validated(def, patterns, matches, existing, next).Ok? <==>
      ToLower(def.source) != "/" && ToLower(def.source) != ToLower(def.target) &&
      (forall p | p in patterns :: !matches(ToLower(p), ToLower(def.source))) &&
      existing.Ok? && !Cycles.Cyclic(def.source, def.target, existing.value) && next != OtherNext
    ensures Validated(def, patterns, matches, existing, next).Ok? ==>
      Validated(def, patterns, matches, existing, next).value ==
        if next == CreateNext then CreateRedirect(def) else UpdateRedirect(def)
  {
    FirstRestrictedIff(patterns, ToLower(def.source), matches);
  }

  /**
   * The rejections in the order the checks run: each is reported only
   * when every earlier check passed.
   */
  lemma RejectionOrder(def: RedirectDefinition, patterns: seq<string>, matches: Matcher, existing: Result<Index, string>, next: Next)
    ensures ToLower(def.source) == "/" ==> Validated(def, patterns, matches, existing, next) == Err(HomepageSource)
    ensures ToLower(def.source) != "/" && ToLower(def.source) == ToLower(def.target) ==>
      Validated(def, patterns, matches, existing, next) == Err(SameSourceAndTarget)
    ensures Validated(def, patterns, matches, existing, next).Err? &&
            Validated(def, patterns, matches, existing, next).error.RestrictedSource? ==>
      ToLower(def.source) != "/" && ToLower(def.source) != ToLower(def.target) &&
      Validated(def, patterns, matches, existing, next).error.source == def.source &&
      matches(Validated(def, patterns, matches, existing, next).error.pattern, ToLower(def.source))
    ensures Validated(def, patterns, matches, existing, next) == Err(InvalidHandler) ==>
      Precheck(def, patterns, matches).None? && existing.Ok? && !Cycles.Cyclic(def.source, def.target, existing.value)
  {
    FirstRestrictedIff(patterns, ToLower(def.source), matches);
  }

  /** A nil restricted-sources provider and one that returns no pattern validate alike. */
  lemma NilProviderRestrictsNothing(def: RedirectDefinition, matches: Matcher, existing: Result<Index, string>, next: Next)
    ensures Validated(def, Restrictions(None), matches, existing, next) == Validated(def, Restrictions(Some([])), matches, existing, next)
    ensures Precheck(def, Restrictions(None), matches) == None <==> ToLower(def.source) != "/" && ToLower(def.source) != ToLower(def.target)
  {
  }

  /**
   * validateRedirect. `provider` is what the restricted-sources provider
   * returns (None when there is none); the dimension is read, stale
   * redirects included, only once the checks before it have passed.
   */
  method ValidateRedirect(repo: Backend, provider: Option<seq<string>>, def: RedirectDefinition, next: Next, matches: Matcher)
    returns (r: Result<Forward, Rejection>)
    modifies repo
    ensures repo.redirects == old(repo.redirects) && repo.failing == old(repo.failing)
    ensures repo.calls == old(repo.calls) +
      if Precheck(def, Restrictions(provider), matches).None? then [Call.FindAllByDimension(def.dimension, false)] else []
    ensures r == Validated(def, Restrictions(provider), matches,
                           DimensionRead(repo.redirects, repo.failing, def.dimension, false), next)
  {
    var patterns := Restrictions(provider);
    var source := ToLower(def.source);
    var target := ToLower(def.target);
    if source == "/" {
      return Err(HomepageSource);
    }
    if source == target {
      return Err(SameSourceAndTarget);
    }
    var hit := MatchRestricted(patterns, source, matches);
    if hit.Some? {
      return Err(RestrictedSource(def.source, hit.value));
    }
    var existing := repo.FindAllByDimension(def.dimension, false);
    if existing.Err? {
      return Err(FetchFailed(existing.error));
    }
    var cyclic := Cycles.HasCycle(def.source, def.target, existing.value);
    if cyclic {
      return Err(CyclicRedirect(def.source, def.target));
    }
    match next {
      case CreateNext => r := Ok(CreateRedirect(def));
      case UpdateNext => r := Ok(UpdateRedirect(def));
      case OtherNext => r := Err(InvalidHandler);
    }
  }

  function Def(source: Source, target: Target): RedirectDefinition
  {
    RedirectDefinition("id", "", source, target, RedirectCodePermanent, false, false, RedirectionTypeManual, "de", false)
  }

  /** Case does not matter: "/Home" to "/home" is refused as a redirect to itself, before any read. */
  lemma MixedCaseSelfRedirectRejected(patterns: seq<string>, matches: Matcher, existing: Result<Index, string>, next: Next)
    ensures Validated(Def("/Home", "/home"), patterns, matches, existing, next) == Err(SameSourceAndTarget)
  {
    assert ToLower("/Home") == "/home";
    assert ToLower("/home") == "/home";
  }

  /** A definition that would close a loop with a stored redirect is refused. */
  lemma LoopWithStoredRedirectRejected(matches: Matcher)
    ensures Validated(Def("/a", "/b"), [], matches, Ok(map["/b" := Def("/b", "/a")]), CreateNext) ==
      Err(CyclicRedirect("/a", "/b"))
  {
    var m := map["/b" := Def("/b", "/a")];
    assert ToLower("/a") == "/a" && ToLower("/b") == "/b";
    assert Cycles.CycleSearch("/a", "/a", m, {"/b"});
  }
}
