/**
 * The search query (query/search.go): pagination defaults and the check of
 * the redirect type, ahead of the one store read. The read itself is
 * abstracted: the model returns the FindMany call the handler makes, or the
 * error it returns without reading.
 */
module SearchQuery {
  import opened Wrappers
  import opened Store
  import opened Backend

  datatype Search = Search(
    source: Source,
    dimension: Dimension,
    onlyActive: bool,
    page: int,
    pageSize: int,
    redirectType: string,
    sort: Sort)

  const DefaultPage: int := 1
  const DefaultPageSize: int := 20

  function InvalidRedirectType(t: string): string
  {
    "invalid redirect type: '" + t + "'; should be empty, 'manual' or 'automatic'"
  }

  /** The redirect types a search accepts: none, manual or automatic. */
  predicate SearchableType(t: string)
  {
    t == "" || t == RedirectionTypeManual || t == RedirectionTypeAutomatic
  }

  /**
   * SearchHandler: a page below 1 becomes the first page, a page size below
   * 1 becomes 20, and any other redirect type than none, manual or automatic
   * is refused before the store is read; everything else is forwarded to
   * FindMany as given.
   */
  function SearchRequest(q: Search): (r: Result<Call, string>)
    ensures r.Err? <==> !SearchableType(q.redirectType)
    ensures r.Err? ==> r.error == InvalidRedirectType(q.redirectType)
    ensures r.Ok? ==> r.value.FindMany? && r.value.pagination.page >= 1 && r.value.pagination.pageSize >= 1
    ensures r.Ok? ==> (q.page >= 1 ==> r.value.pagination.page == q.page) && (q.page < 1 ==> r.value.pagination.page == DefaultPage)
    ensures r.Ok? ==> (q.pageSize >= 1 ==> r.value.pagination.pageSize == q.pageSize) &&
                      (q.pageSize < 1 ==> r.value.pagination.pageSize == DefaultPageSize)
    ensures r.Ok? ==> r.value.source == q.source && r.value.dimension == q.dimension && r.value.redirectType == q.redirectType &&
                      r.value.onlyActive == q.onlyActive && r.value.sort == q.sort
  {
    var page := if q.page < 1 then DefaultPage else q.page;
    var pageSize := if q.pageSize < 1 then DefaultPageSize else q.pageSize;
    if q.redirectType != "" && q.redirectType != RedirectionTypeManual && q.redirectType != RedirectionTypeAutomatic then
      Err(InvalidRedirectType(q.redirectType))
    else
      Ok(Call.FindMany(q.source, q.dimension, q.redirectType, q.onlyActive, Pagination(page, pageSize), q.sort))
  }

  /**
   * A search by type accepts exactly the types the store filters on, and no
   * type at all: "all", valid as a filter value, is refused here.
   */
  lemma SearchableIffFilteredOrNone(t: string)
    ensures SearchableType(t) <==> t == "" || RedirectionTypeToFilter(t).1
    ensures !SearchableType(RedirectionTypeAll) && RedirectionTypeIsValid(RedirectionTypeAll)
  {
  }

  /** Normalising the pagination twice changes nothing: a forwarded search is forwarded as it is. */
  lemma SearchRequestIdempotent(q: Search)
    requires SearchRequest(q).Ok?
    ensures var c := SearchRequest(q).value;
      SearchRequest(Search(c.source, c.dimension, c.onlyActive, c.pagination.page, c.pagination.pageSize, c.redirectType, c.sort)) == Ok(c)
  {
  }
}
