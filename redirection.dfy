/**
 * The `redirection` package's value objects: the redirect definition served to
 * sites and its response code.
 */
module Redirection {
  import Store

  const RedirectCodePermanent: int := 301
  const RedirectCodeTemporary: int := 307

  datatype RedirectDefinition = RedirectDefinition(
    id: string,
    source: string,
    target: string,
    code: int,
    respectParams: bool,
    transferParams: bool)

  datatype Redirect = Redirect(response: string, code: int)

  /** RedirectCode.Valid: a switch accepting exactly the two declared codes. */
  function CodeValid(code: int): (r: bool)
    ensures r <==> code == RedirectCodePermanent || code == RedirectCodeTemporary
  {
    if code == RedirectCodePermanent then true
    else if code == RedirectCodeTemporary then true
    else false
  }

  /** Both packages accept the same response codes. */
  lemma CodeValidAgreesWithStore(code: int)
    ensures CodeValid(code) == Store.CodeValid(code)
  {
  }
}
