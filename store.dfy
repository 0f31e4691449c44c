/**
 * The redirect store's value types: the redirect definition, its codes, the
 * search filters and the sort direction.
 */
module Store {
  import opened Wrappers

  type EntityID = string
  type Dimension = string
  type Source = string
  type Target = string

  /** The two redirection types the store filters on (plus the "all" wildcard). */
  const RedirectionTypeAll: string := "all"
  const RedirectionTypeManual: string := "manual"
  const RedirectionTypeAutomatic: string := "automatic"

  const RedirectCodePermanent: int := 301
  const RedirectCodeTemporary: int := 307

  /** One persisted redirect rule. `stale` marks a rule kept for audit but not served. */
  datatype RedirectDefinition = RedirectDefinition(
    id: EntityID,
    contentId: string,
    source: Source,
    target: Target,
    code: int,
    respectParams: bool,
    transferParams: bool,
    redirectionType: string,
    dimension: Dimension,
    stale: bool)
  {
    predicate IsAutomatic() { redirectionType == RedirectionTypeAutomatic }
  }

  /** A dimension's redirects indexed by source (Go's `RedirectDefinitions`). */
  type Index = map<Source, RedirectDefinition>

  /** Every entry of the index sits under its own source. */
  predicate KeyedBySource(m: Index)
  {
    forall s | s in m :: m[s].source == s
  }

  /** RedirectCode.Valid: the switch accepts the permanent and the temporary code only. */
  function CodeValid(code: int): (r: bool)
    ensures r <==> code in {301, 307}
  {
    match code
    case 301 => true
    case 307 => true
    case _ => false
  }

  /** Of the codes a redirect can be thought to carry, only 301 and 307 are accepted. */
  lemma CodeValidRejectsOtherRedirectCodes()
    ensures CodeValid(RedirectCodePermanent) && CodeValid(RedirectCodeTemporary)
    ensures !CodeValid(302) && !CodeValid(308) && !CodeValid(404) && !CodeValid(410)
  {
  }

  const ActiveStateAll: string := "all"
  const ActiveStateEnabled: string := "enabled"
  const ActiveStateDisabled: string := "disabled"

  predicate ActiveStateIsValid(a: string)
  {
    a == ActiveStateEnabled || a == ActiveStateDisabled || a == ActiveStateAll
  }

  /**
   * ActiveStateType.ToFilter: the boolean the "active" column is filtered on,
   * and whether to filter at all.
   */
  function ActiveStateToFilter(a: string): (r: (Option<bool>, bool))
    ensures r.1 <==> ActiveStateIsValid(a) && a != ActiveStateAll
    ensures r.1 <==> r.0.Some?
    ensures r.0 == Some(true) <==> a == ActiveStateEnabled
  {
    match a
    case "enabled" => (Some(true), true)
    case "disabled" => (Some(false), true)
    case _ => (None, false)
  }

  predicate RedirectionTypeIsValid(t: string)
  {
    t == RedirectionTypeAutomatic || t == RedirectionTypeManual || t == RedirectionTypeAll
  }

  /** RedirectionType.ToFilter: the type to filter on, and whether to filter at all. */
  function RedirectionTypeToFilter(t: string): (r: (Option<string>, bool))
    ensures r.1 <==> RedirectionTypeIsValid(t) && t != RedirectionTypeAll
    ensures r.1 <==> r.0 == Some(t)
    ensures !r.1 ==> r.0 == None
  {
    match t
    case "manual" => (Some(RedirectionTypeManual), true)
    case "automatic" => (Some(RedirectionTypeAutomatic), true)
    case _ => (None, false)
  }

  /** ActiveStateType.IsValid: "all", or exactly a state the "active" column is filtered on. */
  lemma ActiveStateValidity(a: string)
    ensures ActiveStateIsValid(a) <==> a == ActiveStateAll || ActiveStateToFilter(a).1
  {
  }

  /** RedirectionType.IsValid: "all", or exactly a type the redirects are filtered on. */
  lemma RedirectionTypeValidity(t: string)
    ensures RedirectionTypeIsValid(t) <==> t == RedirectionTypeAll || RedirectionTypeToFilter(t).1
  {
  }

  const DirectionAscending: string := "ascending"
  const DirectionDescending: string := "descending"

  /** Direction.GetSortValue: -1 for descending, 1 for everything else. */
  function GetSortValue(d: string): (r: int)
    ensures r == 1 || r == -1
    ensures r == -1 <==> d == DirectionDescending
  {
    match d
    case "ascending" => 1
    case "descending" => -1
    case _ => 1
  }
}
